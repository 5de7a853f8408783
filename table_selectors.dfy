/** Queries over tables (tables/selectors.py) and the `has_active_order` test the table services use. */
module TableSelectors {
  import opened OrderStatus
  import opened TableModels
  import opened OrderModels
  import opened Database
  import opened OrderSelectors

  /** FINAL_STATUSES: the statuses after which an order no longer holds its table. */
  const FinalStatuses: set<Status> := {Paid, Cancelled}

  /** get_tables: every table in the store. */
  function GetTables(db: Db): (r: set<Table>)
    reads db
    ensures r == db.tables
  {
    db.tables
  }

  /** has_active_order: some order placed at the table has a status outside FINAL_STATUSES. */
  predicate HasActiveOrder(db: Db, table: Table)
    reads db, db.orders
    ensures !HasActiveOrder(db, table) ==>
      forall o :: o in db.orders && o.table == table ==> !o.IsActive()
  {
    exists o :: o in db.orders && o.table == table && o.status !in FinalStatuses
  }

  /** get_available_tables: the active tables without an order outside FINAL_STATUSES. */
  function GetAvailableTables(db: Db): (r: set<Table>)
    reads db, db.tables, db.orders
    ensures forall t :: t in r ==> t in db.tables && t.isActive && !HasActiveOrder(db, t)
    ensures forall t :: t in db.tables && t.isActive && !HasActiveOrder(db, t) ==> t in r
  {
    set t | t in db.tables && t.isActive && !HasActiveOrder(db, t)
  }

  /** FINAL_STATUSES is exactly the complement of Order.is_active. */
  lemma FinalStatusesAreTheClosedOnes(s: Status)
    ensures s in FinalStatuses <==> !IsActiveStatus(s)
  {
  }

  /** The table's has_active_order agrees with the order selector create_order consults. */
  lemma HasActiveOrderAgrees(db: Db, table: Table)
    ensures HasActiveOrder(db, table) <==> ActiveOrdersOfTable(db, table) != {}
  {
    if HasActiveOrder(db, table) {
      var o :| o in db.orders && o.table == table && o.status !in FinalStatuses;
      assert o in ActiveOrdersOfTable(db, table);
    }
  }

  /**
   * A table is listed as available exactly when create_order would open an order there:
   * it is active and no open order sits at it.
   */
  lemma AvailableIffOrderable(db: Db, table: Table)
    ensures table in GetAvailableTables(db) <==>
      table in db.tables && table.isActive && ActiveOrdersOfTable(db, table) == {}
  {
    HasActiveOrderAgrees(db, table);
  }

  /** A table without any order has no active order. */
  lemma NoOrdersNoActiveOrder(db: Db, table: Table)
    requires forall o :: o in db.orders ==> o.table != table
    ensures !HasActiveOrder(db, table)
  {
  }
}
