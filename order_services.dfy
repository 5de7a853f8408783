/**
 * Order services (orders/services.py): opening an order at a table and the guarded status
 * moves. Every move goes through Order.ChangeStatus, so none can leave the transition table.
 */
module OrderServices {
  import opened Common
  import opened OrderStatus
  import opened Errors
  import opened TableModels
  import opened OrderModels
  import opened Database
  import opened OrderSelectors

  /**
   * create_order: refuses a table that already has an open order (checked first), then an
   * inactive table; otherwise inserts exactly one new CREATED order at the table.
   */
  method CreateOrder(db: Db, table: Table, user: UserId) returns (r: Result<Order>)
    requires db.Valid() && table in db.tables
    modifies db
    ensures db.Valid()
    ensures db.tables == old(db.tables) && db.products == old(db.products) && db.items == old(db.items)
    ensures old(ActiveOrdersOfTable(db, table)) != {} ==>
      r == Err(TableHasActiveOrder) && db.orders == old(db.orders)
    ensures old(ActiveOrdersOfTable(db, table)) == {} && !table.isActive ==>
      r == Err(TableInactive) && db.orders == old(db.orders)
    ensures old(ActiveOrdersOfTable(db, table)) == {} && table.isActive ==>
      && r.Ok? && fresh(r.value) && db.orders == old(db.orders) + {r.value}
      && r.value.table == table && r.value.createdBy == user && r.value.status == Created
    ensures old(db.OneActiveOrderPerTable()) ==> db.OneActiveOrderPerTable()
    ensures old(db.ActiveOrdersOnActiveTables()) ==> db.ActiveOrdersOnActiveTables()
  {
    var hasActiveOrder := ActiveOrdersOfTable(db, table) != {};
    if hasActiveOrder {
      return Err(TableHasActiveOrder);
    }
    if !table.isActive {
      return Err(TableInactive);
    }
    var order := new Order(table, user);
    db.orders := db.orders + {order};
    return Ok(order);
  }

  /** change_status: the transition table decides, as in Order.ChangeStatus. */
  method ChangeStatus(ghost db: Db, order: Order, newStatus: Status) returns (r: Outcome)
    modifies order
    ensures r.Pass? <==> newStatus in ValidTransitions(old(order.status))
    ensures r.Fail? ==> r.error == InvalidTransition(old(order.status), newStatus)
    ensures order.status == (if r.Pass? then newStatus else old(order.status))
    ensures old(db.OneActiveOrderPerTable()) ==> db.OneActiveOrderPerTable()
    ensures old(db.ActiveOrdersOnActiveTables()) ==> db.ActiveOrdersOnActiveTables()
  {
    r := order.ChangeStatus(newStatus);
  }

  /**
   * The shared shape of start_preparation, mark_ready and deliver: refuse a closed order, then
   * let the transition table decide.
   */
  method Advance(ghost db: Db, order: Order, target: Status, during: Operation) returns (r: Outcome)
    modifies order
    ensures !old(order.IsActive()) ==> r == Fail(OrderClosed(during))
    ensures old(order.IsActive()) ==>
      r == (if target in ValidTransitions(old(order.status)) then Pass
            else Fail(InvalidTransition(old(order.status), target)))
    ensures order.status == (if r.Pass? then target else old(order.status))
    ensures old(db.OneActiveOrderPerTable()) ==> db.OneActiveOrderPerTable()
    ensures old(db.ActiveOrdersOnActiveTables()) ==> db.ActiveOrdersOnActiveTables()
  {
    if !order.IsActive() {
      return Fail(OrderClosed(during));
    }
    r := order.ChangeStatus(target);
  }

  /** start_preparation: succeeds exactly on a CREATED order. */
  method StartPreparation(ghost db: Db, order: Order) returns (r: Outcome)
    modifies order
    ensures r.Pass? <==> old(order.status) == Created
    ensures !old(order.IsActive()) ==> r == Fail(OrderClosed(Preparing))
    ensures old(order.IsActive()) && r.Fail? ==> r.error == InvalidTransition(old(order.status), InPreparation)
    ensures order.status == (if r.Pass? then InPreparation else old(order.status))
    ensures old(db.OneActiveOrderPerTable()) ==> db.OneActiveOrderPerTable()
    ensures old(db.ActiveOrdersOnActiveTables()) ==> db.ActiveOrdersOnActiveTables()
  {
    r := Advance(db, order, InPreparation, Preparing);
  }

  /** mark_ready: succeeds exactly on an IN_PREPARATION order; on a CREATED one the table refuses. */
  method MarkReady(ghost db: Db, order: Order) returns (r: Outcome)
    modifies order
    ensures r.Pass? <==> old(order.status) == InPreparation
    ensures !old(order.IsActive()) ==> r == Fail(OrderClosed(MarkingReady))
    ensures old(order.IsActive()) && r.Fail? ==> r.error == InvalidTransition(old(order.status), Ready)
    ensures order.status == (if r.Pass? then Ready else old(order.status))
    ensures old(db.OneActiveOrderPerTable()) ==> db.OneActiveOrderPerTable()
    ensures old(db.ActiveOrdersOnActiveTables()) ==> db.ActiveOrdersOnActiveTables()
  {
    r := Advance(db, order, Ready, MarkingReady);
  }

  /** deliver: succeeds exactly on a READY order. */
  method Deliver(ghost db: Db, order: Order) returns (r: Outcome)
    modifies order
    ensures r.Pass? <==> old(order.status) == Ready
    ensures !old(order.IsActive()) ==> r == Fail(OrderClosed(Delivering))
    ensures old(order.IsActive()) && r.Fail? ==> r.error == InvalidTransition(old(order.status), Delivered)
    ensures order.status == (if r.Pass? then Delivered else old(order.status))
    ensures old(db.OneActiveOrderPerTable()) ==> db.OneActiveOrderPerTable()
    ensures old(db.ActiveOrdersOnActiveTables()) ==> db.ActiveOrdersOnActiveTables()
  {
    r := Advance(db, order, Delivered, Delivering);
  }

  /**
   * pay_order: refuses a closed order, then any order not yet delivered; otherwise the order
   * is PAID and its table no longer has an open order.
   */
  method PayOrder(ghost db: Db, order: Order) returns (r: Outcome)
    requires order in db.orders
    modifies order
    ensures !old(order.IsActive()) ==> r == Fail(OrderClosed(Paying))
    ensures old(order.IsActive()) && old(order.status) != Delivered ==> r == Fail(NotDelivered)
    ensures old(order.status) == Delivered ==> r == Pass
    ensures order.status == (if r.Pass? then Paid else old(order.status))
    ensures r.Pass? && old(db.OneActiveOrderPerTable()) ==> ActiveOrdersOfTable(db, order.table) == {}
    ensures old(db.OneActiveOrderPerTable()) ==> db.OneActiveOrderPerTable()
    ensures old(db.ActiveOrdersOnActiveTables()) ==> db.ActiveOrdersOnActiveTables()
  {
    if !order.IsActive() {
      return Fail(OrderClosed(Paying));
    }
    if order.status != Delivered {
      return Fail(NotDelivered);
    }
    r := order.ChangeStatus(Paid);
  }

  /**
   * cancel_order: refuses a closed order, then any order whose preparation has started;
   * otherwise the order is CANCELLED and its table no longer has an open order.
   */
  method CancelOrder(ghost db: Db, order: Order) returns (r: Outcome)
    requires order in db.orders
    modifies order
    ensures !old(order.IsActive()) ==> r == Fail(OrderClosed(Cancelling))
    ensures old(order.IsActive()) && old(order.status) != Created ==> r == Fail(NotCancellable)
    ensures old(order.status) == Created ==> r == Pass
    ensures order.status == (if r.Pass? then Cancelled else old(order.status))
    ensures r.Pass? && old(db.OneActiveOrderPerTable()) ==> ActiveOrdersOfTable(db, order.table) == {}
    ensures old(db.OneActiveOrderPerTable()) ==> db.OneActiveOrderPerTable()
    ensures old(db.ActiveOrdersOnActiveTables()) ==> db.ActiveOrdersOnActiveTables()
  {
    if !order.IsActive() {
      return Fail(OrderClosed(Cancelling));
    }
    if order.status != Created {
      return Fail(NotCancellable);
    }
    r := order.ChangeStatus(Cancelled);
  }
}
