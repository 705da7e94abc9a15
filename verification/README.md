# Maisha Mart supermarket API — item and order stores in Dafny

This project models the two in-memory stores behind the supermarket
ordering API in `main.py`:

- the **item store**, a list of catalog items with five endpoints: add, list by
  category, get, update and delete;
- the **order store**, a list of orders with five endpoints: create (which
  computes the total and derives an `MM-XXXXXXXX` id), list by status, get,
  update status and delete.

Each endpoint is a pure function of the list as it was before the request.
The six endpoints that can change a store (add, update and delete items;
create, update the status of and delete orders) return a `Reply` that holds
the list after the request together with the response. The four read
endpoints (list and get, for items and for orders) leave the store as it is,
so they return the response alone. A response that can fail is either the
endpoint's value or `NotFound(detail)`, which stands for the service's HTTP
404, the only error the stores raise. Random UUIDs and
the clock are passed in as parameters.

Files:

- `results.dfy`: module `Results`, with `Option`, `Result` (Ok / NotFound) and `Reply`.
- `lists.dfy`: module `Lists`, with the list primitives that both stores are built from.
  These are the first-match scan (`IndexOf`), the filtering comprehension
  (`Select`) and `pop(i)` (`RemoveAt`). It also holds key uniqueness (`Distinct`)
  and the lemmas relating these primitives.
- `text.dfy`: module `Text`, with Python's prefix slice and ASCII `upper()`, used
  to build order ids.
- `catalog.dfy`: module `Catalog`, the item store.
- `orders.dfy`: module `Orders`, the order store.
- `scenario.dfy`: module `Scenario`, a worked request sequence.

The source never checks that ids are unique. Every lookup returns the first
matching position, so contracts are stated in terms of `IsFirst`, the first
position whose key matches. These contracts do not assume unique ids.
Uniqueness (`Distinct`) shows up in two ways:

- as a property that each endpoint is proved to preserve, given a fresh
  generated id;
- as an extra hypothesis of the lemmas that need it. For example, "after a
  delete the id is gone" holds only when ids are distinct, because with a
  duplicate id only the first record is removed.

## Model

| member | source | states |
|---|---|---|
| Lists.IndexOf | main.py:118-121 | the linear scan yields the first position whose key matches, and None exactly when no record has that key |
| Lists.OccursHasFirst | main.py:126-127 | a key that is present has a first position, and the scan returns that position |
| Lists.Select | main.py:112 | the comprehension keeps only records whose key matches, and keeps every such record |
| Lists.SelectAppend | main.py:112 | filtering a concatenation is the concatenation of the filtered parts, so the result follows list order |
| Lists.SelectMultiplicity | main.py:112 | each matching record is kept as many times as it occurs, and no other record is kept |
| Lists.SelectIdempotent | main.py:112 | filtering the filtered list again changes nothing |
| Lists.SelectNone | main.py:112 | a list with no matching record filters to the empty list |
| Lists.RemoveAt | main.py:138 | `pop(i)` shortens the list by one, keeps positions before i and shifts later positions down by one |
| Lists.RemoveAtRestores | main.py:138 | putting the popped record back at i restores the list, so the multiset loses exactly that record |
| Lists.IndexOfAppend | main.py:105 | appending never moves an existing first match, and an absent key can only be found at the new last position |
| Lists.IndexOfReplace | main.py:129 | overwriting the first match with a record that has the same key keeps it the first match |
| Lists.AppendFreshDistinct | main.py:104-105 | appending a record whose key is not present keeps keys distinct |
| Lists.ReplaceSameKeyDistinct | main.py:129 | overwriting a record with one of the same key keeps keys distinct |
| Lists.RemoveDistinct | main.py:138 | popping a record keeps keys distinct |
| Lists.RemoveDistinctGone | main.py:138 | in a list with distinct keys, the popped record's key is absent afterwards |
| Text.UpperChar | main.py:149 | a lower-case ASCII letter maps to its upper-case letter (code point minus 32), every other character is unchanged, and no result is a lower-case ASCII letter |
| Text.Upper | main.py:149 | `upper()` keeps the length, maps each character by its ASCII upper case, and leaves no lower-case ASCII letter |
| Text.UpperIdempotent | main.py:149 | upper-casing twice is the same as upper-casing once |
| Text.Take | main.py:149 | `s[:n]` is a prefix of s whose length is n, or the length of s when s is shorter |
| Catalog.RequestWithDefaults | main.py:56-62 | a request that omits unit, stock and image gets "pc", 0 and "" |
| Catalog.MakeItem | main.py:104 | the built item has the given id and exactly the request's fields |
| Catalog.MakeItemFromFields | main.py:46-62 | an item is determined by its id together with its request fields |
| Catalog.AddItem | main.py:102-106 | add always succeeds; the returned item has the new id and the request's fields; the store grows by one with that item at the end and earlier items unchanged |
| Catalog.ListItems | main.py:109-113 | with no category or an empty one, the whole store; otherwise exactly the items whose category equals the filter (case-sensitive) |
| Catalog.ListItemsExact | main.py:110-112 | a filtered listing holds each matching item as often as the store does, and nothing else |
| Catalog.ListAfterAdd | main.py:103-113 | listing after an add gives the earlier listing, followed by the new item if it passes the filter |
| Catalog.GetItem | main.py:116-121 | succeeds exactly when some item has the id; returns the first such item; otherwise "Item not found." |
| Catalog.GetAfterAdd | main.py:103-121 | an add never changes what an existing id looks up to, and a fresh id then looks up to the new item |
| Catalog.UpdateItem | main.py:124-131 | succeeds exactly when the id is present; replaces only the first match with a record that keeps the id and takes all other fields from the request; keeps the length; on 404 the store is unchanged |
| Catalog.GetAfterUpdate | main.py:117-131 | after an update, the id looks up to the replacement record |
| Catalog.UpdateIdempotent | main.py:125-131 | sending the same update twice has the same effect as sending it once |
| Catalog.UpdateKeepsIdsDistinct | main.py:125-131 | an update keeps ids distinct |
| Catalog.DeleteItem | main.py:134-140 | succeeds exactly when the id is present; removes only the first match and keeps the rest in order; on 404 the store is unchanged |
| Catalog.DeleteLosesOne | main.py:135-140 | a successful delete loses exactly one record from the store's multiset, the first one with the id |
| Catalog.DeleteAfterAdd | main.py:103-140 | deleting the item just added under a fresh id restores the store |
| Catalog.AddKeepsIdsDistinct | main.py:103-106 | adding under a fresh id keeps ids distinct |
| Catalog.DeleteRemovesId | main.py:117-140 | with distinct ids, a delete keeps them distinct and every later get of that id is a 404 |
| Orders.ParseStatus | main.py:28-32 | a string names a status exactly when it is one of the four enum values |
| Orders.StatusRoundTrip | main.py:28-32 | each status name parses back to that status |
| Orders.CustomerWithDefaults | main.py:65-71 | customer details that omit area, notes and payment method get none, none and "mpesa" |
| Orders.RequestWithoutFee | main.py:85-89 | an order request that omits the delivery fee gets a fee of 0 |
| Orders.NewOrderId | main.py:149 | the id is "MM-" followed by the upper-cased first eight characters of the generated text, so it is 11 characters long when that text has at least eight |
| Orders.NewOrderIdCollides | main.py:149 | generated texts that agree on their first eight characters give the same order id |
| Orders.CreateOrder | main.py:144-158 | the total is subtotal plus delivery fee; the status is pending; the id is derived as above; items, customer and timestamp are carried through; the order is appended with earlier orders unchanged; consistent totals stay consistent |
| Orders.ListOrders | main.py:161-165 | with no status or an empty one, the whole store; otherwise exactly the orders whose status value equals the string |
| Orders.ListUnknownStatusEmpty | main.py:163-164 | a non-empty filter that names no status selects no order |
| Orders.ListOrdersExact | main.py:163-164 | a filtered listing holds each matching order as often as the store does, and nothing else |
| Orders.ListAfterCreate | main.py:145-165 | listing after a create gives the earlier listing followed by the new order when there is no filter, an empty one or "pending", and the earlier listing alone under any other filter |
| Orders.GetOrder | main.py:168-173 | succeeds exactly when some order has the id; returns the first such order; otherwise "Order not found." |
| Orders.GetAfterCreate | main.py:145-173 | a create never changes what an existing id looks up to, and an unused id then looks up to the new order |
| Orders.UpdateOrderStatus | main.py:176-182 | succeeds exactly when the id is present, whatever the current status; changes only the status of the first match; leaves every other field and order unchanged; on 404 the store is unchanged; consistent totals stay consistent |
| Orders.GetAfterStatusUpdate | main.py:177-182 | any status can be written over any status, and the next read shows the new status with every other field unchanged |
| Orders.StatusUpdateUndo | main.py:177-182 | writing back the previous status undoes a status update |
| Orders.StatusUpdateLastWins | main.py:177-182 | of two status updates in a row, only the second has an effect |
| Orders.StatusUpdateKeepsIdsDistinct | main.py:177-182 | a status update keeps ids distinct |
| Orders.DeleteOrder | main.py:185-191 | succeeds exactly when the id is present; removes only the first match and keeps the rest in order; on 404 the store is unchanged; consistent totals stay consistent |
| Orders.DeleteAfterCreate | main.py:145-191 | deleting the order just created under an unused id restores the store |
| Orders.CreateKeepsIdsDistinct | main.py:145-158 | creating under an unused id keeps ids distinct |
| Orders.DeleteRemovesOrder | main.py:168-191 | with distinct ids, a delete keeps them distinct and every later get of that id is a 404 |
| Scenario.MilkOrderScenario | main.py:102-191 | adding "Milk" (dairy, 50) and placing an order whose one line names that item, with subtotal 50 and fee 10, gives an 11-character id, a total of 60, status pending and the milk line carried in the order; completing the order shows "completed"; deleting it makes the next get a 404 |

## Left out

- HTTP routing, status codes and JSON serialisation (main.py:11-15 and the
  decorators): a 404 is the `NotFound` result, with the service's detail text.
- The static file mount and the homepage (main.py:17-24): they are file-system I/O.
- Request validation and type coercion at the boundary. The update endpoint
  takes an `OrderStatus` that is already validated. The list filters take raw
  strings.
- `uuid.uuid4()` and `datetime.utcnow()`: the generated UUID text and the
  timestamp text are parameters.
- Floating point: `price`, `subtotal`, `delivery_fee` and `total` are exact
  `real`s, so the total is an exact sum with no IEEE rounding.
- The contents of order line items (`List[dict]`) are modelled as string-to-string
  maps. They are only carried through, never inspected.
- Text.Upper: models `str.upper()` on ASCII only. Non-ASCII case mappings, some
  of which change the length, are not modelled. The text being upper-cased is a
  UUID, which is ASCII hex.
- Text.UpperChar: leaves every non-ASCII character unchanged, whereas
  `str.upper()` maps non-ASCII lower-case letters too (`'é'` to `'É'`). The
  characters of a UUID are all ASCII.
- The `Category` enumeration (main.py:35-43) is declared but never used.
  `Item.category` is a free string, and it is modelled that way.
- Aliasing and concurrency: `list_items` returns the module-level list itself,
  and `update_order_status` mutates the order object in place. The model uses
  value semantics and handles one request at a time.
- Id uniqueness is a design assumption, not something the code enforces. The
  lemmas state it as a hypothesis (`Distinct` together with a fresh id) and
  never as a precondition of an endpoint.
- The repository's second service, the grocery-delivery API, is not part of
  this model. That includes its check that an order's item ids exist in the
  item store.
