/** Queries over order lines (order_items/selectors.py) and who may see which lines. */
module OrderItemSelectors {
  import opened Common
  import opened ProductModels
  import opened OrderModels
  import opened OrderItemModels
  import opened Database

  /** get_order_items: every line in the store. */
  function GetOrderItems(db: Db): (r: set<OrderItem>)
    reads db
    ensures r == db.items
  {
    db.items
  }

  /** get_order_items_by_user: the lines of orders that `user` created. */
  function GetOrderItemsByUser(db: Db, user: UserId): (r: set<OrderItem>)
    reads db
    ensures forall i :: i in r ==> i in db.items && i.order.createdBy == user
    ensures forall i :: i in db.items && i.order.createdBy == user ==> i in r
  {
    set i | i in db.items && i.order.createdBy == user
  }

  /** get_items_of_order: the lines of `order`. */
  function GetItemsOfOrder(db: Db, order: Order): (r: set<OrderItem>)
    reads db
    ensures forall i :: i in r ==> i in db.items && i.order == order
    ensures forall i :: i in db.items && i.order == order ==> i in r
  {
    set i | i in db.items && i.order == order
  }

  /**
   * get_order_item: the line for (order, product), if there is one. The unique constraint
   * leaves at most one candidate, so taking the first is taking that one.
   */
  function GetOrderItem(db: Db, order: Order, product: Product): (r: Option<OrderItem>)
    reads db
    requires db.UniqueItems()
    ensures r.Some? ==> r.value in db.items && r.value.order == order && r.value.product == product
    ensures r.None? ==> forall i :: i in db.items ==> !(i.order == order && i.product == product)
  {
    if exists i :: i in db.items && i.order == order && i.product == product then
      var i :| i in db.items && i.order == order && i.product == product;
      Some(i)
    else
      None
  }

  /** The line list a user is shown: everything for a superuser, their own orders' lines otherwise. */
  function VisibleOrderItems(db: Db, user: UserId, isSuperuser: bool): (r: set<OrderItem>)
    reads db
    ensures isSuperuser ==> r == GetOrderItems(db)
    ensures !isSuperuser ==> r == GetOrderItemsByUser(db, user)
  {
    if isSuperuser then GetOrderItems(db) else GetOrderItemsByUser(db, user)
  }

  /** The lookup by (order, product) finds any matching line: it is the only one. */
  lemma GetOrderItemIsExact(db: Db, order: Order, product: Product, item: OrderItem)
    requires db.UniqueItems()
    ensures GetOrderItem(db, order, product) == Some(item) <==>
      item in db.items && item.order == order && item.product == product
  {
  }

  /** A user's lines are exactly the lines of the orders that user created. */
  lemma ItemsByUserAreItemsOfTheirOrders(db: Db, user: UserId, item: OrderItem)
    requires db.Valid()
    ensures item in GetOrderItemsByUser(db, user) <==>
      exists o :: o in db.orders && o.createdBy == user && item in GetItemsOfOrder(db, o)
  {
    if item in GetOrderItemsByUser(db, user) {
      assert item.order in db.orders && item in GetItemsOfOrder(db, item.order);
    }
  }
}
