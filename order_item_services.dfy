/**
 * The order-line ledger (order_items/services.py): adding a product to an order merges into
 * the existing line or creates a new one with the product's name and price copied in; lines
 * of a closed order cannot be added, changed or removed.
 */
module OrderItemServices {
  import opened Errors
  import opened ProductModels
  import opened OrderModels
  import opened OrderItemModels
  import opened Database
  import opened OrderItemSelectors

  /**
   * create_order_item: refuses a closed order (checked first), then an inactive product.
   * If the order already has a line for the product, that line's quantity grows by `quantity`
   * and its name and price stay as first copied; otherwise one new line is inserted with the
   * product's current name and price.
   */
  method CreateOrderItem(db: Db, order: Order, product: Product, quantity: nat) returns (r: Result<OrderItem>)
    requires db.Valid() && order in db.orders && product in db.products
    modifies db, db.items
    ensures db.Valid()
    ensures db.tables == old(db.tables) && db.products == old(db.products) && db.orders == old(db.orders)
    ensures !order.IsActive() ==> r == Err(OrderClosed(AddingItem)) && db.items == old(db.items)
    ensures order.IsActive() && !product.isActive ==> r == Err(ProductInactive) && db.items == old(db.items)
    ensures order.IsActive() && product.isActive ==>
      r.Ok? && r.value in db.items && r.value.order == order && r.value.product == product
    ensures r.Ok? && old(GetOrderItem(db, order, product)).Some? ==>
      && r.value == old(GetOrderItem(db, order, product)).value
      && db.items == old(db.items)
      && r.value.quantity == old(r.value.quantity) + quantity
      && r.value.Subtotal() == old(r.value.Subtotal()) + quantity * r.value.unitPrice
    ensures r.Ok? && old(GetOrderItem(db, order, product)).None? ==>
      && fresh(r.value) && db.items == old(db.items) + {r.value}
      && r.value.productName == product.name && r.value.unitPrice == product.price
      && r.value.quantity == quantity
    ensures forall i :: i in old(db.items) && !(r.Ok? && i == r.value) ==> i.quantity == old(i.quantity)
    ensures old(db.PositiveQuantities()) && quantity >= 1 ==> db.PositiveQuantities()
  {
    if !order.IsActive() {
      return Err(OrderClosed(AddingItem));
    }
    if !product.isActive {
      return Err(ProductInactive);
    }
    var found := GetOrderItem(db, order, product);
    if found.Some? {
      var item := found.value;
      item.quantity := quantity + item.quantity;
      return Ok(item);
    }
    var item := new OrderItem(order, product, product.name, product.price, quantity);
    db.items := db.items + {item};
    return Ok(item);
  }

  /** update_order_item_quantity: refuses a line of a closed order; otherwise sets its quantity and nothing else. */
  method UpdateOrderItemQuantity(ghost db: Db, item: OrderItem, quantity: nat) returns (r: Result<OrderItem>)
    modifies item
    ensures !item.order.IsActive() ==> r == Err(OrderClosed(UpdatingItem)) && item.quantity == old(item.quantity)
    ensures item.order.IsActive() ==> r == Ok(item) && item.quantity == quantity
    ensures old(db.PositiveQuantities()) && quantity >= 1 ==> db.PositiveQuantities()
  {
    if !item.order.IsActive() {
      return Err(OrderClosed(UpdatingItem));
    }
    item.quantity := quantity;
    return Ok(item);
  }

  /** delete_order_item: refuses a line of a closed order; otherwise removes exactly that line. */
  method DeleteOrderItem(db: Db, item: OrderItem) returns (r: Outcome)
    requires db.Valid()
    modifies db
    ensures db.Valid()
    ensures db.tables == old(db.tables) && db.products == old(db.products) && db.orders == old(db.orders)
    ensures !item.order.IsActive() ==> r == Fail(OrderClosed(DeletingItem)) && db.items == old(db.items)
    ensures item.order.IsActive() ==> r == Pass && db.items == old(db.items) - {item}
    ensures old(db.PositiveQuantities()) ==> db.PositiveQuantities()
  {
    if !item.order.IsActive() {
      return Fail(OrderClosed(DeletingItem));
    }
    db.items := db.items - {item};
    return Pass;
  }
}
