/** The order store of the supermarket API: an in-memory list of orders
    and the five endpoints over it (create, list, get, update status,
    delete).

    Create, status update and delete return a `Reply` holding the store
    after the request and the response; list and get leave the store as it
    is and return the response alone.  The generated UUID text and the
    creation timestamp are parameters.  Line items and customer details are
    carried through unchanged.
 */
module Orders {
  import opened Results
  import opened Lists
  import opened Text

  /** The status enumeration.  Any value may follow any other: the service
      has no transition check. */
  datatype OrderStatus = Pending | Processing | Completed | Cancelled

  /** The string value of each status (the enumeration is a `str` enum). */
  function StatusName(s: OrderStatus): string
  {
    match s
    case Pending => "pending"
    case Processing => "processing"
    case Completed => "completed"
    case Cancelled => "cancelled"
  }

  /** The status a string names, if any. */
  function ParseStatus(t: string): (r: Option<OrderStatus>)
    ensures r.Some? ==> StatusName(r.value) == t
    ensures r.None? ==> forall s: OrderStatus :: StatusName(s) != t
  {
    if t == "pending" then Some(Pending)
    else if t == "processing" then Some(Processing)
    else if t == "completed" then Some(Completed)
    else if t == "cancelled" then Some(Cancelled)
    else None
  }

  /** Status names are distinct and parse back to their status. */
  lemma StatusRoundTrip(s: OrderStatus)
    ensures ParseStatus(StatusName(s)) == Some(s)
  {
  }

  /** Contact and delivery details of the customer. */
  datatype CustomerInfo = CustomerInfo(
    name: string,
    phone: string,
    area: Option<string>,
    address: string,
    notes: Option<string>,
    paymentMethod: string)

  const DefaultPaymentMethod: string := "mpesa"

  /** Customer details that give only the required fields: no area, no
      notes, payment by M-Pesa. */
  function CustomerWithDefaults(name: string, phone: string, address: string): (c: CustomerInfo)
    ensures c.name == name && c.phone == phone && c.address == address
    ensures c.area.None? && c.notes.None? && c.paymentMethod == "mpesa"
  {
    CustomerInfo(name, phone, None, address, None, DefaultPaymentMethod)
  }

  /** One line of an order: an arbitrary key/value record, kept as sent. */
  type LineItem = map<string, string>

  /** An order.  Amounts are exact; `date` is the creation timestamp text. */
  datatype Order = Order(
    id: string,
    items: seq<LineItem>,
    customer: CustomerInfo,
    subtotal: real,
    deliveryFee: real,
    total: real,
    status: OrderStatus,
    date: string)

  /** The body of a create-order request. */
  datatype OrderRequest = OrderRequest(
    items: seq<LineItem>,
    customer: CustomerInfo,
    subtotal: real,
    deliveryFee: real)

  const DefaultDeliveryFee: real := 0.0

  /** A create-order request without a delivery fee: the fee is zero. */
  function RequestWithoutFee(items: seq<LineItem>, customer: CustomerInfo, subtotal: real): (req: OrderRequest)
    ensures req.items == items && req.customer == customer && req.subtotal == subtotal
    ensures req.deliveryFee == 0.0
  {
    OrderRequest(items, customer, subtotal, DefaultDeliveryFee)
  }

  const IdPrefix: string := "MM-"
  const IdTagLength: nat := 8

  const OrderNotFound: string := "Order not found."
  const OrderDeleted: string := "Order deleted successfully."

  function OrderKey(o: Order): string { o.id }

  /** The status as the string it compares equal to. */
  function StatusText(o: Order): string { StatusName(o.status) }

  /** `"MM-" + str(uuid)[:8].upper()`. */
  function NewOrderId(generated: string): (id: string)
    ensures |id| == 3 + (if |generated| < 8 then |generated| else 8)
    ensures id[..3] == "MM-"
    ensures forall i :: 3 <= i < |id| ==> id[i] == UpperChar(generated[i - 3])
  {
    IdPrefix + Upper(Take(generated, IdTagLength))
  }

  /** The identifier keeps only eight characters of the generated text, so
      two generated strings that agree on their first eight characters give
      the same order id. */
  lemma NewOrderIdCollides(g1: string, g2: string)
    requires |g1| >= 8 && |g2| >= 8 && g1[..8] == g2[..8]
    ensures NewOrderId(g1) == NewOrderId(g2)
  {
  }

  /** Every order in the store carries the total it was created with. */
  predicate TotalsConsistent(db: seq<Order>)
  {
    forall i :: 0 <= i < |db| ==> db[i].total == db[i].subtotal + db[i].deliveryFee
  }

  /** POST /api/orders: build the order with a computed total, status
      pending and the derived id, and append it. */
  function CreateOrder(db: seq<Order>, req: OrderRequest, generated: string, now: string): (r: Reply<Order, Order>)
    ensures r.result.Ok?
    ensures r.result.value.total == req.subtotal + req.deliveryFee
    ensures r.result.value.status == Pending
    ensures r.result.value.id == NewOrderId(generated)
    ensures r.result.value.items == req.items && r.result.value.customer == req.customer
    ensures r.result.value.subtotal == req.subtotal && r.result.value.deliveryFee == req.deliveryFee
    ensures r.result.value.date == now
    ensures |r.store| == |db| + 1
    ensures r.store[..|db|] == db && r.store[|db|] == r.result.value
    ensures TotalsConsistent(db) ==> TotalsConsistent(r.store)
  {
    var total := req.subtotal + req.deliveryFee;
    var o := Order(NewOrderId(generated), req.items, req.customer, req.subtotal,
                   req.deliveryFee, total, Pending, now);
    Reply(db + [o], Ok(o))
  }

  /** GET /api/orders?status=: the whole store when the filter is absent or
      empty, otherwise the orders whose status value equals the string.  A
      string that names no status selects nothing. */
  function ListOrders(db: seq<Order>, status: Option<string>): (r: seq<Order>)
    ensures status.None? || status.value == "" ==> r == db
    ensures status.Some? && status.value != "" ==>
      forall o :: o in r <==> o in db && StatusName(o.status) == status.value
  {
    if status.Some? && status.value != "" then Select(db, StatusText, status.value)
    else db
  }

  /** A filter string that names no status selects no order. */
  lemma ListUnknownStatusEmpty(db: seq<Order>, t: string)
    requires t != "" && ParseStatus(t).None?
    ensures ListOrders(db, Some(t)) == []
  {
    SelectNone(db, StatusText, t);
  }

  /** GET /api/orders/{id}: the first order with the id, or 404. */
  function GetOrder(db: seq<Order>, id: string): (r: Result<Order>)
    ensures r.Ok? <==> Occurs(db, OrderKey, id)
    ensures forall i :: IsFirst(db, OrderKey, id, i) ==> r == Ok(db[i])
    ensures r.NotFound? ==> r.detail == OrderNotFound
  {
    match IndexOf(db, OrderKey, id)
    case None => NotFound(OrderNotFound)
    case Some(i) => Ok(db[i])
  }

  /** PATCH /api/orders/{id}/status: set the status of the first order with
      the id, whatever its current status; nothing else changes. */
  function UpdateOrderStatus(db: seq<Order>, id: string, status: OrderStatus): (r: Reply<Order, Order>)
    ensures r.result.Ok? <==> Occurs(db, OrderKey, id)
    ensures forall i :: IsFirst(db, OrderKey, id, i) ==>
      && r.result == Ok(db[i].(status := status))
      && r.store == db[i := db[i].(status := status)]
    ensures |r.store| == |db|
    ensures r.result.NotFound? ==> r.store == db && r.result.detail == OrderNotFound
    ensures TotalsConsistent(db) ==> TotalsConsistent(r.store)
  {
    match IndexOf(db, OrderKey, id)
    case None => Reply(db, NotFound(OrderNotFound))
    case Some(i) =>
      var updated := db[i].(status := status);
      Reply(db[i := updated], Ok(updated))
  }

  /** DELETE /api/orders/{id}: drop the first order with the id. */
  function DeleteOrder(db: seq<Order>, id: string): (r: Reply<Order, string>)
    ensures r.result.Ok? <==> Occurs(db, OrderKey, id)
    ensures forall i :: IsFirst(db, OrderKey, id, i) ==>
      r.store == RemoveAt(db, i) && r.result == Ok(OrderDeleted)
    ensures r.result.Ok? ==> |r.store| == |db| - 1
    ensures r.result.NotFound? ==> r.store == db && r.result.detail == OrderNotFound
    ensures TotalsConsistent(db) ==> TotalsConsistent(r.store)
  {
    match IndexOf(db, OrderKey, id)
    case None => Reply(db, NotFound(OrderNotFound))
    case Some(i) => Reply(RemoveAt(db, i), Ok(OrderDeleted))
  }

  // ---------------------------------------------------------------------
  // Properties relating the endpoints

  /** The filtered listing is exactly the matching part of the store, with
      multiplicities. */
  lemma ListOrdersExact(db: seq<Order>, t: string, o: Order)
    requires t != ""
    ensures multiset(ListOrders(db, Some(t)))[o] == if StatusName(o.status) == t then multiset(db)[o] else 0
  {
    SelectMultiplicity(db, StatusText, t, o);
  }

  /** A new order is pending, so it shows up after every order listed
      before in the unfiltered listing and under the "pending" filter, and
      under no other non-empty filter. */
  lemma ListAfterCreate(db: seq<Order>, req: OrderRequest, generated: string, now: string, status: Option<string>)
    ensures ListOrders(CreateOrder(db, req, generated, now).store, status) ==
      ListOrders(db, status) +
        (if status.None? || status.value == "" || status.value == "pending"
         then [CreateOrder(db, req, generated, now).result.value] else [])
  {
    var o := CreateOrder(db, req, generated, now).result.value;
    if status.Some? && status.value != "" {
      var t := status.value;
      SelectAppend(db, [o], StatusText, t);
      assert Select([o], StatusText, t) == if t == "pending" then [o] else [];
    }
  }

  /** Any status may be set from any status: the update succeeds exactly
      when the id is present, and the next read shows the new status with
      every other field as it was. */
  lemma GetAfterStatusUpdate(db: seq<Order>, id: string, status: OrderStatus)
    requires Occurs(db, OrderKey, id)
    ensures UpdateOrderStatus(db, id, status).result.Ok?
    ensures GetOrder(UpdateOrderStatus(db, id, status).store, id) ==
      Ok(GetOrder(db, id).value.(status := status))
  {
    var i := OccursHasFirst(db, OrderKey, id);
    IndexOfReplace(db, OrderKey, id, i, db[i].(status := status));
  }

  /** Writing back the status an order had undoes a status update. */
  lemma StatusUpdateUndo(db: seq<Order>, id: string, status: OrderStatus)
    requires Occurs(db, OrderKey, id)
    ensures UpdateOrderStatus(UpdateOrderStatus(db, id, status).store, id, GetOrder(db, id).value.status).store == db
  {
    var i := OccursHasFirst(db, OrderKey, id);
    IndexOfReplace(db, OrderKey, id, i, db[i].(status := status));
    var mid := db[i := db[i].(status := status)];
    assert mid[i := mid[i].(status := db[i].status)] == db;
  }

  /** Of two status updates in a row, the second wins. */
  lemma StatusUpdateLastWins(db: seq<Order>, id: string, s1: OrderStatus, s2: OrderStatus)
    ensures UpdateOrderStatus(UpdateOrderStatus(db, id, s1).store, id, s2) ==
      UpdateOrderStatus(db, id, s2)
  {
    if Occurs(db, OrderKey, id) {
      var i := OccursHasFirst(db, OrderKey, id);
      IndexOfReplace(db, OrderKey, id, i, db[i].(status := s1));
    }
  }

  /** Creating an order never changes what an existing id looks up to, and
      an unused id looks up to the new order. */
  lemma GetAfterCreate(db: seq<Order>, req: OrderRequest, generated: string, now: string, id: string)
    ensures GetOrder(CreateOrder(db, req, generated, now).store, id) ==
      if Occurs(db, OrderKey, id) then GetOrder(db, id)
      else if id == NewOrderId(generated) then CreateOrder(db, req, generated, now).result
      else NotFound(OrderNotFound)
  {
    var o := CreateOrder(db, req, generated, now).result.value;
    IndexOfAppend(db, OrderKey, id, o);
    if Occurs(db, OrderKey, id) {
      var i := OccursHasFirst(db, OrderKey, id);
      assert (db + [o])[i] == db[i];
    }
  }

  /** Deleting the order just created under an unused id restores the store. */
  lemma DeleteAfterCreate(db: seq<Order>, req: OrderRequest, generated: string, now: string)
    requires !Occurs(db, OrderKey, NewOrderId(generated))
    ensures DeleteOrder(CreateOrder(db, req, generated, now).store, NewOrderId(generated)) ==
      Reply(db, Ok(OrderDeleted))
  {
    var o := CreateOrder(db, req, generated, now).result.value;
    IndexOfAppend(db, OrderKey, o.id, o);
    RemoveLast(db, o);
  }

  // ---------------------------------------------------------------------
  // Identifier uniqueness, which the service assumes of its generated ids.

  lemma CreateKeepsIdsDistinct(db: seq<Order>, req: OrderRequest, generated: string, now: string)
    requires Distinct(db, OrderKey)
    requires !Occurs(db, OrderKey, NewOrderId(generated))
    ensures Distinct(CreateOrder(db, req, generated, now).store, OrderKey)
  {
    AppendFreshDistinct(db, OrderKey, CreateOrder(db, req, generated, now).result.value);
  }

  lemma StatusUpdateKeepsIdsDistinct(db: seq<Order>, id: string, status: OrderStatus)
    requires Distinct(db, OrderKey)
    ensures Distinct(UpdateOrderStatus(db, id, status).store, OrderKey)
  {
    if Occurs(db, OrderKey, id) {
      var i := OccursHasFirst(db, OrderKey, id);
      ReplaceSameKeyDistinct(db, OrderKey, i, db[i].(status := status));
    }
  }

  /** With distinct ids, a deleted order is gone: every later lookup is a 404. */
  lemma DeleteRemovesOrder(db: seq<Order>, id: string)
    requires Distinct(db, OrderKey)
    ensures Distinct(DeleteOrder(db, id).store, OrderKey)
    ensures GetOrder(DeleteOrder(db, id).store, id) == NotFound(OrderNotFound)
  {
    if Occurs(db, OrderKey, id) {
      var i := OccursHasFirst(db, OrderKey, id);
      RemoveDistinct(db, OrderKey, i);
      RemoveDistinctGone(db, OrderKey, i);
    }
  }
}
