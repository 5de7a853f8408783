/**
 * The order-line forms (order_items/serializers.py): both check the quantity before handing
 * the request to the ledger, so every line created or updated through them asks for at least
 * one unit. The quantity passes two checks in turn: the range check of the positive-integer
 * column, which the form derives from the model field, and then the form's own validate_quantity.
 */
module OrderItemSerializers {
  import opened Errors
  import opened ProductModels
  import opened OrderModels
  import opened OrderItemModels
  import opened Database
  import opened OrderItemSelectors
  import opened OrderItemServices

  /**
   * The range check the form takes over from the positive-integer column (minimum 0). It runs
   * before validate_quantity, so a negative quantity never reaches that method.
   */
  function QuantityField(quantity: int): (r: Result<nat>)
    ensures r.Ok? <==> quantity >= 0
    ensures r.Ok? ==> r.value == quantity
    ensures r.Err? ==> r.error == QuantityBelowMinimum
  {
    if quantity < 0 then Err(QuantityBelowMinimum) else Ok(quantity)
  }

  /** Both checks in the order the form runs them: only what passes both is a valid quantity. */
  function CheckQuantity(quantity: int): (r: Result<nat>)
    ensures r.Ok? <==> quantity >= 1
    ensures r.Ok? ==> r.value == quantity
    ensures quantity < 0 ==> r == Err(QuantityBelowMinimum)
    ensures quantity == 0 ==> r == Err(QuantityInvalid)
  {
    var field := QuantityField(quantity);
    if field.Err? then Err(field.error) else ValidateQuantity(field.value)
  }

  /** validate_quantity, as both forms define it: refuses zero and negatives, passes the rest through. */
  function ValidateQuantity(quantity: int): (r: Result<nat>)
    ensures r.Ok? <==> quantity >= 1
    ensures r.Ok? ==> r.value == quantity
    ensures r.Err? ==> r.error == QuantityInvalid
  {
    if quantity <= 0 then Err(QuantityInvalid) else Ok(quantity)
  }

  /**
   * One unit is the smallest quantity accepted. Zero is refused by validate_quantity, a
   * negative quantity already by the column's range check.
   */
  lemma QuantityBoundary()
    ensures ValidateQuantity(0) == Err(QuantityInvalid)
    ensures ValidateQuantity(1) == Ok(1)
    ensures CheckQuantity(-1) == Err(QuantityBelowMinimum)
    ensures CheckQuantity(0) == Err(QuantityInvalid)
    ensures CheckQuantity(1) == Ok(1)
  {
  }

  /**
   * OrderItemCreateSerializer: the quantity check comes before every check of the ledger;
   * a valid request is passed to create_order_item unchanged.
   */
  method Create(db: Db, order: Order, product: Product, quantity: int) returns (r: Result<OrderItem>)
    requires db.Valid() && order in db.orders && product in db.products
    modifies db, db.items
    ensures db.Valid()
    ensures db.tables == old(db.tables) && db.products == old(db.products) && db.orders == old(db.orders)
    ensures quantity < 0 ==> r == Err(QuantityBelowMinimum)
    ensures quantity == 0 ==> r == Err(QuantityInvalid)
    ensures quantity >= 1 && !order.IsActive() ==> r == Err(OrderClosed(AddingItem))
    ensures quantity >= 1 && order.IsActive() && !product.isActive ==> r == Err(ProductInactive)
    ensures r.Err? ==> db.items == old(db.items)
    ensures r.Ok? <==> quantity >= 1 && order.IsActive() && product.isActive
    ensures r.Ok? ==> r.value in db.items && r.value.order == order && r.value.product == product
    ensures r.Ok? && old(GetOrderItem(db, order, product)).Some? ==>
      && r.value == old(GetOrderItem(db, order, product)).value
      && db.items == old(db.items)
      && r.value.quantity == old(r.value.quantity) + quantity
    ensures r.Ok? && old(GetOrderItem(db, order, product)).None? ==>
      && fresh(r.value) && db.items == old(db.items) + {r.value}
      && r.value.productName == product.name && r.value.unitPrice == product.price
      && r.value.quantity == quantity
    ensures forall i :: i in old(db.items) && !(r.Ok? && i == r.value) ==> i.quantity == old(i.quantity)
    ensures old(db.PositiveQuantities()) ==> db.PositiveQuantities()
  {
    var checked := CheckQuantity(quantity);
    if checked.Err? {
      return Err(checked.error);
    }
    r := CreateOrderItem(db, order, product, checked.value);
  }

  /** OrderItemUpdateSerializer: the quantity check comes first; a valid quantity goes to update_order_item_quantity. */
  method Update(ghost db: Db, item: OrderItem, quantity: int) returns (r: Result<OrderItem>)
    modifies item
    ensures quantity < 0 ==> r == Err(QuantityBelowMinimum) && item.quantity == old(item.quantity)
    ensures quantity == 0 ==> r == Err(QuantityInvalid) && item.quantity == old(item.quantity)
    ensures quantity >= 1 && !item.order.IsActive() ==>
      r == Err(OrderClosed(UpdatingItem)) && item.quantity == old(item.quantity)
    ensures quantity >= 1 && item.order.IsActive() ==> r == Ok(item) && item.quantity == quantity
    ensures old(db.PositiveQuantities()) ==> db.PositiveQuantities()
  {
    var checked := CheckQuantity(quantity);
    if checked.Err? {
      return Err(checked.error);
    }
    r := UpdateOrderItemQuantity(db, item, checked.value);
  }
}
