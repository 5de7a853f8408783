/**
 * The relational store the services read and write: one set of rows per model. `Valid` is what
 * the schema itself guarantees (foreign keys, column ranges, unique constraints); the business
 * rules the services are meant to keep are stated separately, since nothing in the store forces them.
 */
module Database {
  import opened TableModels
  import opened ProductModels
  import opened OrderModels
  import opened OrderItemModels

  class Db {
    var tables: set<Table>
    var products: set<Product>
    var orders: set<Order>
    var items: set<OrderItem>

    constructor ()
      ensures tables == {} && products == {} && orders == {} && items == {}
    {
      tables, products, orders, items := {}, {}, {}, {};
    }

    /** Foreign keys resolve, prices fit their columns, and the unique constraints hold. */
    ghost predicate Valid()
      reads this, products
      ensures Valid() ==> forall i :: i in items ==> i.order.table in tables
    {
      && (forall o :: o in orders ==> o.table in tables)
      && (forall i :: i in items ==> i.order in orders)
      && (forall i :: i in items && i.product != null ==> i.product in products)
      && (forall p :: p in products ==> FitsPriceColumn(p.price))
      && (forall i :: i in items ==> FitsPriceColumn(i.unitPrice))
      && UniqueProductNames()
      && UniqueItems()
    }

    /** Product.name is unique. */
    ghost predicate UniqueProductNames()
      reads this, products
    {
      forall p, q :: p in products && q in products && p.name == q.name ==> p == q
    }

    /** The unique (order, product) constraint; lines whose product was deleted are exempt. */
    predicate UniqueItems()
      reads this
    {
      forall i, j :: i in items && j in items && i.order == j.order && i.product == j.product && i.product != null ==> i == j
    }

    /** Business rule: a table has at most one open order. */
    ghost predicate OneActiveOrderPerTable()
      reads this, orders
    {
      forall o1, o2 :: o1 in orders && o2 in orders && o1.table == o2.table && o1.IsActive() && o2.IsActive() ==> o1 == o2
    }

    /** Business rule: an open order sits at an active table (tables with open orders are not deactivated). */
    ghost predicate ActiveOrdersOnActiveTables()
      reads this, orders, tables
    {
      forall o :: o in orders && o.table in tables && o.IsActive() ==> o.table.isActive
    }

    /** Business rule: every line asks for at least one unit (the serializers' validation). */
    ghost predicate PositiveQuantities()
      reads this, items
    {
      forall i :: i in items ==> i.quantity >= 1
    }
  }
}
