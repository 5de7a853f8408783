/**
 * A line of an order (order_items/models.py). The product's name and price are copied into the
 * line when it is created; only the quantity changes afterwards.
 */
module OrderItemModels {
  import opened OrderModels
  import opened ProductModels

  class OrderItem {
    const order: Order
    /** Null once the product has been deleted; the line itself is kept. */
    const product: Product?
    /** Snapshot of the product's name when the line was created. */
    const productName: string
    /** Snapshot of the product's price when the line was created, in thousandths. */
    const unitPrice: int
    var quantity: nat

    constructor (order: Order, product: Product?, productName: string, unitPrice: int, quantity: nat)
      ensures this.order == order && this.product == product
      ensures this.productName == productName && this.unitPrice == unitPrice
      ensures this.quantity == quantity
    {
      this.order := order;
      this.product := product;
      this.productName := productName;
      this.unitPrice := unitPrice;
      this.quantity := quantity;
    }

    /** OrderItem.subtotal, in thousandths: depends on this line alone, never on the product. */
    function Subtotal(): (r: int)
      reads this
      ensures quantity == 0 ==> r == 0
      ensures unitPrice >= 0 ==> r >= 0
    {
      quantity * unitPrice
    }
  }
}
