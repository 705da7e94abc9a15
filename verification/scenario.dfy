/** A worked request sequence against an empty service: add an item, place
    an order whose one line names it, complete the order, delete it. */
module Scenario {
  import opened Results
  import opened Catalog
  import opened Orders

  lemma MilkOrderScenario(itemUuid: string, orderUuid: string, now: string, customer: CustomerInfo)
    requires |orderUuid| >= 8
    ensures var items := AddItem([], itemUuid, RequestWithDefaults("Milk", "dairy", 50.0)).store;
            && GetItem(items, itemUuid) == Ok(Item(itemUuid, "Milk", "dairy", 50.0, "pc", 0, ""))
            && ListItems(items, Some("dairy")) == items
            && ListItems(items, Some("Dairy")) == []
    ensures var milkLine: LineItem := map["item_id" := itemUuid, "name" := "Milk", "quantity" := "1"];
            var created := CreateOrder([], OrderRequest([milkLine], customer, 50.0, 10.0), orderUuid, now);
            var id := created.result.value.id;
            var completed := UpdateOrderStatus(created.store, id, Completed);
            var deleted := DeleteOrder(completed.store, id);
            && |id| == 11
            && created.result.value.total == 60.0
            && created.result.value.status == Pending
            && created.result.value.items == [milkLine]
            && GetOrder(completed.store, id).value.items == [milkLine]
            && GetOrder(completed.store, id).value.status == Completed
            && GetOrder(completed.store, id).value.total == 60.0
            && deleted.result == Ok(OrderDeleted)
            && GetOrder(deleted.store, id) == NotFound(OrderNotFound)
  {
    var items := AddItem([], itemUuid, RequestWithDefaults("Milk", "dairy", 50.0)).store;
    GetAfterAdd([], itemUuid, RequestWithDefaults("Milk", "dairy", 50.0), itemUuid);
    ListAfterAdd([], itemUuid, RequestWithDefaults("Milk", "dairy", 50.0), Some("Dairy"));
    ListAfterAdd([], itemUuid, RequestWithDefaults("Milk", "dairy", 50.0), Some("dairy"));
  }
}
