/** The validation errors the core raises, and the result types that carry them. */
module Errors {
  import opened OrderStatus

  /** The operation that found its order already closed (each raises its own message). */
  datatype Operation =
    | Preparing | MarkingReady | Delivering | Paying | Cancelling
    | AddingItem | UpdatingItem | DeletingItem

  datatype Error =
    | TableHasActiveOrder
    | TableInactive
    | InvalidTransition(from: Status, to: Status)
    | OrderClosed(during: Operation)
    | NotDelivered
    | NotCancellable
    | ProductInactive
    | QuantityInvalid
    | QuantityBelowMinimum
    | TableAlreadyActive
    | TableAlreadyInactive
    | TableHasActiveOrders
    | ProductAlreadyActive
    | ProductAlreadyInactive
    | PriceNegative
    | UsernameNotAvailable

  /**
   * The message each error is raised with. Paying and cancelling a closed order share one
   * message; no other error uses it.
   */
  function Message(e: Error): (r: string)
    ensures r == "Order is already closed" <==> e == OrderClosed(Paying) || e == OrderClosed(Cancelling)
  {
    match e
    case TableHasActiveOrder => "This table has an active order"
    case TableInactive => "This table is not active"
    case InvalidTransition(from, to) => "Cannot change status from " + Code(from) + " to " + Code(to)
    case OrderClosed(Preparing) => "Cannot start preparation. The order is already closed."
    case OrderClosed(MarkingReady) => "Cannot mark as ready. The order is already closed."
    case OrderClosed(Delivering) => "Cannot deliver. The order is already closed."
    case OrderClosed(Paying) => "Order is already closed"
    case OrderClosed(Cancelling) => "Order is already closed"
    case OrderClosed(AddingItem) => "Cannot assign items to an inactive order"
    case OrderClosed(UpdatingItem) => "Cannot update an item of an inactive order"
    case OrderClosed(DeletingItem) => "Cannot delete an item of an inactive order"
    case NotDelivered => "Only delivered orders can be paid"
    case NotCancellable => "Only orders that have not started preparation can be cancelled"
    case ProductInactive => "Cannot add an inactive product to an order"
    case QuantityInvalid => "Quantity must be at least 1"
    case QuantityBelowMinimum => "Ensure this value is greater than or equal to 0."
    case TableAlreadyActive => "Table is already activated"
    case TableAlreadyInactive => "Table is already deactivated"
    case TableHasActiveOrders => "Cannot deactivate a table with active orders"
    case ProductAlreadyActive => "Product is already activated"
    case ProductAlreadyInactive => "Product is already deactivated"
    case PriceNegative => "Price cannot be a negative value"
    case UsernameNotAvailable => "Username not available"
  }

  /** An operation that yields a value or fails with a validation error. */
  datatype Result<+T> = Ok(value: T) | Err(error: Error)

  /** An operation that yields nothing or fails with a validation error. */
  datatype Outcome = Pass | Fail(error: Error)
}
