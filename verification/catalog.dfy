/** The item store of the supermarket API: an in-memory list of catalog
    items and the five endpoints over it (add, list, get, update, delete).

    Each endpoint is a pure function of the store before the request.  Add,
    update and delete return a `Reply` holding the store after the request
    and the response; list and get leave the store as it is and return the
    response alone.  The identifier
    of a new item (a random UUID in the service) is a parameter.
 */
module Catalog {
  import opened Results
  import opened Lists

  /** A catalog entry.  `price` is an exact amount rather than a float. */
  datatype Item = Item(
    id: string,
    name: string,
    category: string,
    price: real,
    unit: string,
    stock: int,
    image: string)

  /** The body of a create or update request: an item without its id. */
  datatype ItemRequest = ItemRequest(
    name: string,
    category: string,
    price: real,
    unit: string,
    stock: int,
    image: string)

  const DefaultUnit: string := "pc"
  const DefaultStock: int := 0
  const DefaultImage: string := ""

  const ItemNotFound: string := "Item not found."
  const ItemDeleted: string := "Item deleted successfully."

  /** A request that gives only the required fields and takes the declared
      defaults for the rest. */
  function RequestWithDefaults(name: string, category: string, price: real): (req: ItemRequest)
    ensures req.name == name && req.category == category && req.price == price
    ensures req.unit == "pc" && req.stock == 0 && req.image == ""
  {
    ItemRequest(name, category, price, DefaultUnit, DefaultStock, DefaultImage)
  }

  function ItemId(it: Item): string { it.id }

  function ItemCategory(it: Item): string { it.category }

  /** The request fields of an item (`dict()` of everything except the id). */
  function Fields(it: Item): ItemRequest
  {
    ItemRequest(it.name, it.category, it.price, it.unit, it.stock, it.image)
  }

  /** `Item(id=id, **request.dict())`: the given id and exactly the request's fields. */
  function MakeItem(id: string, req: ItemRequest): (it: Item)
    ensures it.id == id
    ensures Fields(it) == req
  {
    Item(id, req.name, req.category, req.price, req.unit, req.stock, req.image)
  }

  /** An item is determined by its id and its request fields. */
  lemma MakeItemFromFields(it: Item)
    ensures MakeItem(it.id, Fields(it)) == it
  {
  }

  /** POST /api/items: append a new item carrying the generated id. */
  function AddItem(db: seq<Item>, newId: string, req: ItemRequest): (r: Reply<Item, Item>)
    ensures r.result.Ok?
    ensures r.result.value.id == newId && Fields(r.result.value) == req
    ensures |r.store| == |db| + 1
    ensures r.store[..|db|] == db && r.store[|db|] == r.result.value
  {
    var it := MakeItem(newId, req);
    Reply(db + [it], Ok(it))
  }

  /** GET /api/items?category=: the whole store when the filter is absent
      or empty (both are false in Python), otherwise the items whose
      category equals it exactly. */
  function ListItems(db: seq<Item>, category: Option<string>): (r: seq<Item>)
    ensures category.None? || category.value == "" ==> r == db
    ensures category.Some? && category.value != "" ==>
      forall x :: x in r <==> x in db && x.category == category.value
  {
    if category.Some? && category.value != "" then Select(db, ItemCategory, category.value)
    else db
  }

  /** GET /api/items/{id}: the first item with the id, or 404. */
  function GetItem(db: seq<Item>, id: string): (r: Result<Item>)
    ensures r.Ok? <==> Occurs(db, ItemId, id)
    ensures forall i :: IsFirst(db, ItemId, id, i) ==> r == Ok(db[i])
    ensures r.NotFound? ==> r.detail == ItemNotFound
  {
    match IndexOf(db, ItemId, id)
    case None => NotFound(ItemNotFound)
    case Some(i) => Ok(db[i])
  }

  /** PUT /api/items/{id}: overwrite the first item with the id by a record
      that keeps the id and takes every other field from the request. */
  function UpdateItem(db: seq<Item>, id: string, req: ItemRequest): (r: Reply<Item, Item>)
    ensures r.result.Ok? <==> Occurs(db, ItemId, id)
    ensures r.result.Ok? ==> r.result.value.id == id && Fields(r.result.value) == req
    ensures forall i :: IsFirst(db, ItemId, id, i) ==> r.store == db[i := r.result.value]
    ensures |r.store| == |db|
    ensures r.result.NotFound? ==> r.store == db && r.result.detail == ItemNotFound
  {
    match IndexOf(db, ItemId, id)
    case None => Reply(db, NotFound(ItemNotFound))
    case Some(i) =>
      var updated := MakeItem(id, req);
      Reply(db[i := updated], Ok(updated))
  }

  /** DELETE /api/items/{id}: drop the first item with the id. */
  function DeleteItem(db: seq<Item>, id: string): (r: Reply<Item, string>)
    ensures r.result.Ok? <==> Occurs(db, ItemId, id)
    ensures forall i :: IsFirst(db, ItemId, id, i) ==>
      r.store == RemoveAt(db, i) && r.result == Ok(ItemDeleted)
    ensures r.result.Ok? ==> |r.store| == |db| - 1
    ensures r.result.NotFound? ==> r.store == db && r.result.detail == ItemNotFound
  {
    match IndexOf(db, ItemId, id)
    case None => Reply(db, NotFound(ItemNotFound))
    case Some(i) => Reply(RemoveAt(db, i), Ok(ItemDeleted))
  }

  // ---------------------------------------------------------------------
  // Properties relating the endpoints

  /** The filtered listing is exactly the matching part of the store, with
      multiplicities. */
  lemma ListItemsExact(db: seq<Item>, c: string, x: Item)
    requires c != ""
    ensures multiset(ListItems(db, Some(c)))[x] == if x.category == c then multiset(db)[x] else 0
  {
    SelectMultiplicity(db, ItemCategory, c, x);
  }

  /** The listing follows store order: listing after an add is the earlier
      listing followed by the new item if it passes the filter. */
  lemma ListAfterAdd(db: seq<Item>, newId: string, req: ItemRequest, category: Option<string>)
    ensures ListItems(AddItem(db, newId, req).store, category) ==
      ListItems(db, category) +
        (if category.None? || category.value == "" || req.category == category.value
         then [MakeItem(newId, req)] else [])
  {
    var it := MakeItem(newId, req);
    assert AddItem(db, newId, req).store == db + [it];
    if category.Some? && category.value != "" {
      SelectAppend(db, [it], ItemCategory, category.value);
      assert Select([it], ItemCategory, category.value) ==
        if req.category == category.value then [it] else [];
    }
  }

  /** Adding an item never changes what an existing id looks up to, and a
      fresh id looks up to the new item. */
  lemma GetAfterAdd(db: seq<Item>, newId: string, req: ItemRequest, id: string)
    ensures GetItem(AddItem(db, newId, req).store, id) ==
      if Occurs(db, ItemId, id) then GetItem(db, id)
      else if id == newId then Ok(MakeItem(newId, req))
      else NotFound(ItemNotFound)
  {
    var it := MakeItem(newId, req);
    assert AddItem(db, newId, req).store == db + [it];
    IndexOfAppend(db, ItemId, id, it);
    if Occurs(db, ItemId, id) {
      var i := OccursHasFirst(db, ItemId, id);
      assert (db + [it])[i] == db[i];
    }
  }

  /** After an update, the id looks up to the new record. */
  lemma GetAfterUpdate(db: seq<Item>, id: string, req: ItemRequest)
    requires Occurs(db, ItemId, id)
    ensures GetItem(UpdateItem(db, id, req).store, id) == Ok(MakeItem(id, req))
  {
    var i := OccursHasFirst(db, ItemId, id);
    IndexOfReplace(db, ItemId, id, i, MakeItem(id, req));
  }

  /** Sending the same update twice has the effect of sending it once. */
  lemma UpdateIdempotent(db: seq<Item>, id: string, req: ItemRequest)
    ensures UpdateItem(UpdateItem(db, id, req).store, id, req) == UpdateItem(db, id, req)
  {
    if Occurs(db, ItemId, id) {
      var i := OccursHasFirst(db, ItemId, id);
      IndexOfReplace(db, ItemId, id, i, MakeItem(id, req));
    }
  }

  /** Deleting the item just added under a fresh id restores the store. */
  lemma DeleteAfterAdd(db: seq<Item>, newId: string, req: ItemRequest)
    requires !Occurs(db, ItemId, newId)
    ensures DeleteItem(AddItem(db, newId, req).store, newId) == Reply(db, Ok(ItemDeleted))
  {
    var it := MakeItem(newId, req);
    IndexOfAppend(db, ItemId, newId, it);
    RemoveLast(db, it);
  }

  /** A successful delete loses exactly one record, the first with the id. */
  lemma DeleteLosesOne(db: seq<Item>, id: string)
    requires Occurs(db, ItemId, id)
    ensures exists i :: IsFirst(db, ItemId, id, i) &&
      multiset(DeleteItem(db, id).store) + multiset{db[i]} == multiset(db)
  {
    var i := OccursHasFirst(db, ItemId, id);
    RemoveAtRestores(db, i);
  }

  // ---------------------------------------------------------------------
  // Identifier uniqueness: the service relies on fresh UUIDs for it and
  // never checks it; these lemmas show each endpoint keeps it.

  lemma AddKeepsIdsDistinct(db: seq<Item>, newId: string, req: ItemRequest)
    requires Distinct(db, ItemId)
    requires !Occurs(db, ItemId, newId)
    ensures Distinct(AddItem(db, newId, req).store, ItemId)
  {
    AppendFreshDistinct(db, ItemId, MakeItem(newId, req));
  }

  lemma UpdateKeepsIdsDistinct(db: seq<Item>, id: string, req: ItemRequest)
    requires Distinct(db, ItemId)
    ensures Distinct(UpdateItem(db, id, req).store, ItemId)
  {
    if Occurs(db, ItemId, id) {
      var i := OccursHasFirst(db, ItemId, id);
      ReplaceSameKeyDistinct(db, ItemId, i, MakeItem(id, req));
    }
  }

  /** With distinct ids, a deleted item is gone: every later lookup is a 404,
      and the remaining ids stay distinct. */
  lemma DeleteRemovesId(db: seq<Item>, id: string)
    requires Distinct(db, ItemId)
    ensures Distinct(DeleteItem(db, id).store, ItemId)
    ensures GetItem(DeleteItem(db, id).store, id) == NotFound(ItemNotFound)
  {
    if Occurs(db, ItemId, id) {
      var i := OccursHasFirst(db, ItemId, id);
      RemoveDistinct(db, ItemId, i);
      RemoveDistinctGone(db, ItemId, i);
    }
  }
}
