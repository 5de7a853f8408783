/**
 * Client code written only against the contracts above: the lifecycle of one table's order,
 * the price snapshot and merge of order lines, and the table-deactivation guard.
 */
module Scenarios {
  import opened Common
  import opened OrderStatus
  import opened Errors
  import opened TableModels
  import opened ProductModels
  import opened OrderModels
  import opened OrderItemModels
  import opened Database
  import opened TableSelectors
  import opened OrderServices
  import opened OrderItemSerializers
  import opened OrderItemServices
  import opened TableServices
  import opened ProductServices

  /** Table 11 takes one order; a second is refused; four chuletas at 10.000 make a 40.000 line. */
  method OpenOrderAndAddLine(admin: UserId, waiter: UserId)
  {
    var db := new Db();
    var table := new Table(11, 4);
    var chuleta := new Product("chuleta", 10_000, Some(admin));
    db.tables := {table};
    db.products := {chuleta};

    var created := CreateOrder(db, table, waiter);
    assert created.Ok?;
    var order := created.value;
    assert order.status == Created && order.IsActive();

    var second := CreateOrder(db, table, waiter);
    assert second == Err(TableHasActiveOrder);

    var line := Create(db, order, chuleta, 4);
    assert line.Ok? && line.value.unitPrice == 10_000 && line.value.Subtotal() == 40_000;
  }

  /** An order is prepared, made ready, delivered and paid; it is then closed and the table takes a new order. */
  method ServeAndPay(admin: UserId, waiter: UserId)
  {
    var db := new Db();
    var table := new Table(11, 4);
    db.tables := {table};
    var created := CreateOrder(db, table, waiter);
    var order := created.value;

    var step := MarkReady(db, order);
    assert step == Fail(InvalidTransition(Created, Ready));
    step := DeactivateTable(db, table, admin);
    assert step == Fail(TableHasActiveOrders) by {
      assert order in db.orders && order.table == table && order.status !in FinalStatuses;
    }

    step := StartPreparation(db, order);
    assert step == Pass;
    step := CancelOrder(db, order);
    assert step == Fail(NotCancellable);
    step := MarkReady(db, order);
    assert step == Pass;
    step := Deliver(db, order);
    assert step == Pass;
    step := PayOrder(db, order);
    assert step == Pass && order.status == Paid && !order.IsActive();
    step := PayOrder(db, order);
    assert step == Fail(OrderClosed(Paying));

    var next := CreateOrder(db, table, waiter);
    assert next.Ok?;
  }

  /** Once its order is closed, a line can be neither added to it, changed nor removed. */
  method ClosedOrderIsFrozen(db: Db, order: Order, product: Product, line: OrderItem)
    requires db.Valid() && order in db.orders && product in db.products && line in db.items
    requires line.order == order && !order.IsActive()
    modifies db, db.items
  {
    var quantity := line.quantity;
    var late := Create(db, order, product, 1);
    assert late == Err(OrderClosed(AddingItem));
    var changed := Update(db, line, 2);
    assert changed == Err(OrderClosed(UpdatingItem)) && line.quantity == quantity;
    var removed := DeleteOrderItem(db, line);
    assert removed == Fail(OrderClosed(DeletingItem)) && line in db.items;
  }

  /** A later price change leaves the line's price and subtotal alone. */
  method PriceSnapshot(admin: UserId, waiter: UserId)
  {
    var db := new Db();
    var table := new Table(1, 2);
    var chuleta := new Product("chuleta", 10_000, Some(admin));
    db.tables := {table};
    db.products := {chuleta};
    var created := CreateOrder(db, table, waiter);
    var order := created.value;

    var first := Create(db, order, chuleta, 4);
    var line := first.value;
    assert db.items == {line};

    chuleta.price := 12_000;
    assert line.unitPrice == 10_000 && line.Subtotal() == 40_000;
  }

  /**
   * Adding a product that already has a line on an open order, after a price change, grows that
   * line at its old price: one more unit adds the snapshot price to the subtotal.
   */
  method MergeAtSnapshotPrice(db: Db, order: Order, product: Product, line: OrderItem, price: int)
    requires db.Valid() && order in db.orders && product in db.products && FitsPriceColumn(price)
    requires line in db.items && line.order == order && line.product == product
    requires order.IsActive() && product.isActive
    modifies db, db.items, product
  {
    var before := line.Subtotal();
    product.price := price;
    var again := Create(db, order, product, 1);
    assert again == Ok(line) && line.Subtotal() == before + line.unitPrice;
  }

  /**
   * Any catalogue edit of any product (a new name, a new price, deactivation) leaves the
   * snapshots and the subtotal of every order line as they were.
   */
  method CatalogueEditKeepsLineTotal(ghost db: Db, product: Product, name: string, price: int,
                                     user: UserId, line: OrderItem)
    modifies product
    ensures product.name == name && product.price == price && !product.isActive
    ensures line.quantity == old(line.quantity)
    ensures line.Subtotal() == old(line.Subtotal())
  {
    product.name := name;
    product.price := price;
    var _ := DeactivateProduct(db, product, user);
  }

  /** A line is asked for at least one unit: zero and negative quantities are refused by different checks. */
  method QuantitiesBelowOneRefused(admin: UserId, waiter: UserId)
  {
    var db := new Db();
    var table := new Table(2, 2);
    var chuleta := new Product("chuleta", 10_000, Some(admin));
    db.tables := {table};
    db.products := {chuleta};
    var created := CreateOrder(db, table, waiter);
    var order := created.value;

    var zero := Create(db, order, chuleta, 0);
    assert zero == Err(QuantityInvalid) && db.items == {};
    var negative := Create(db, order, chuleta, -1);
    assert negative == Err(QuantityBelowMinimum) && db.items == {};
  }

  /** A table whose only order was cancelled can be deactivated, and then takes no new order. */
  method DeactivateAfterCancel(admin: UserId, waiter: UserId)
  {
    var db := new Db();
    var table := new Table(3, 6);
    db.tables := {table};
    var created := CreateOrder(db, table, waiter);
    var order := created.value;
    var cancel := CancelOrder(db, order);
    assert cancel == Pass;
    HasActiveOrderAgrees(db, table);
    var off := DeactivateTable(db, table, admin);
    assert off == Pass && table.modifiedBy == Some(admin);
    off := DeactivateTable(db, table, admin);
    assert off == Fail(TableAlreadyInactive);
    var refused := CreateOrder(db, table, waiter);
    assert refused == Err(TableInactive);
  }
}
