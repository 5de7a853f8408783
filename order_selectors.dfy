/** Queries over orders (orders/selectors.py). */
module OrderSelectors {
  import opened OrderModels
  import opened TableModels
  import opened Database

  /** get_orders: every order in the store. */
  function GetOrders(db: Db): (r: set<Order>)
    reads db
    ensures r == db.orders
  {
    db.orders
  }

  /** get_active_orders_of_table: the open orders placed at `table`. */
  function ActiveOrdersOfTable(db: Db, table: Table): (r: set<Order>)
    reads db, db.orders
    ensures forall o :: o in r ==> o in db.orders && o.table == table && o.IsActive()
    ensures forall o :: o in db.orders && o.table == table && o.IsActive() ==> o in r
  {
    set o | o in db.orders && o.table == table && o.IsActive()
  }

  /** Under the one-open-order rule the query finds at most one order. */
  lemma AtMostOneActiveOrder(db: Db, table: Table)
    requires db.OneActiveOrderPerTable()
    ensures |ActiveOrdersOfTable(db, table)| <= 1
  {
    var found := ActiveOrdersOfTable(db, table);
    if found != {} {
      var o :| o in found;
      assert found == {o};
    }
  }
}
