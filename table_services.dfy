/**
 * Table activation toggles (tables/services.py). Toggling to the current state is an error;
 * deactivation is also refused while an order at the table is open.
 */
module TableServices {
  import opened Common
  import opened Errors
  import opened TableModels
  import opened Database
  import opened TableSelectors

  /** activate_table: refuses an active table; otherwise activates it and records the user. */
  method ActivateTable(ghost db: Db, table: Table, user: UserId) returns (r: Outcome)
    modifies table
    ensures old(table.isActive) ==> r == Fail(TableAlreadyActive) && unchanged(table)
    ensures !old(table.isActive) ==> r == Pass && table.isActive && table.modifiedBy == Some(user)
    ensures table.number == old(table.number) && table.capacity == old(table.capacity)
    ensures r.Pass? && table in db.tables && !HasActiveOrder(db, table) ==>
      GetAvailableTables(db) == old(GetAvailableTables(db)) + {table}
    ensures old(db.ActiveOrdersOnActiveTables()) ==> db.ActiveOrdersOnActiveTables()
  {
    if table.isActive {
      return Fail(TableAlreadyActive);
    }
    table.isActive := true;
    table.modifiedBy := Some(user);
    return Pass;
  }

  /**
   * deactivate_table: refuses an inactive table (checked first), then a table with an open
   * order; otherwise deactivates it and records the user. A table that this makes inactive
   * has no open order.
   */
  method DeactivateTable(db: Db, table: Table, user: UserId) returns (r: Outcome)
    modifies table
    ensures !old(table.isActive) ==> r == Fail(TableAlreadyInactive) && unchanged(table)
    ensures old(table.isActive) && HasActiveOrder(db, table) ==>
      r == Fail(TableHasActiveOrders) && unchanged(table)
    ensures old(table.isActive) && !HasActiveOrder(db, table) ==>
      r == Pass && !table.isActive && table.modifiedBy == Some(user)
    ensures table.number == old(table.number) && table.capacity == old(table.capacity)
    ensures r.Pass? ==> !HasActiveOrder(db, table)
    ensures r.Pass? ==> GetAvailableTables(db) == old(GetAvailableTables(db)) - {table}
    ensures old(db.ActiveOrdersOnActiveTables()) ==> db.ActiveOrdersOnActiveTables()
  {
    if !table.isActive {
      return Fail(TableAlreadyInactive);
    }
    if HasActiveOrder(db, table) {
      return Fail(TableHasActiveOrders);
    }
    table.isActive := false;
    table.modifiedBy := Some(user);
    return Pass;
  }
}
