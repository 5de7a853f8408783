# Restaurant order backend — domain core in Dafny

This project models the rules of a restaurant order backend that decide how its entities may
change:

- **Order lifecycle.** Six statuses and a fixed transition table. Status is written in one
  place only, `Order.ChangeStatus`. On top of it sit the guarded services: create an order,
  start preparation, mark ready, deliver, pay and cancel.
- **Order-line ledger.** Adding a product to an order is an upsert. A second add of the same
  product grows the existing line's quantity. A new line copies in the product's current name
  and price, and later catalogue edits never reach it. Lines of a closed order cannot be added,
  changed or removed.
- **Activation toggles.** Tables and products are switched on and off by admins. Toggling to
  the current state is an error. A table with an open order cannot be switched off.
- **Form validators.** A product price may not be negative. A quantity must be at least 1. The
  username "admin" is refused in any letter case.

Entities whose fields the services update in place are classes: `Table`, `Product`, `Order`
and `OrderItem`. The store is a class `Db` with one set of rows per model.
`Db.Valid()` holds what the schema itself guarantees:

- foreign keys resolve;
- prices fit decimal(10,3);
- product names are unique;
- (order, product) is unique per line.

The business rules the services keep are separate predicates:

- at most one open order per table (`Db.OneActiveOrderPerTable`), preserved by every
  operation that could break it;
- every open order sits at an active table (`Db.ActiveOrdersOnActiveTables`), preserved by
  every operation that could break it;
- every line asks for at least one unit (`Db.PositiveQuantities`). The order-line forms
  (`OrderItemSerializers.Create`, `OrderItemSerializers.Update`) preserve it for every request.
  The ledger services preserve it only for a quantity of at least 1: the positive-integer
  column admits 0, so `create_order_item` called with 0 stores an empty line.

These are stated as "if it held before, it holds after", because nothing in the store forces
them.

Money is a whole number of thousandths, so 10.000 is `10_000`. No reals or floats are used.

One module per source file: `OrderStatus` and `OrderModels` (orders/models.py),
`OrderSelectors`, `OrderServices`, `OrderItemModels`, `OrderItemSelectors`,
`OrderItemServices`, `OrderItemSerializers`, `TableModels`, `TableSelectors`, `TableServices`,
`ProductModels`, `ProductSelectors`, `ProductServices`, `ProductSerializers` and
`AccountSerializers`. Three modules support them: `Common` (user keys, `Option`), `Errors`
(the error kinds with their messages, `Result`, `Outcome`) and `Database` (the store).
`Scenarios` holds client code written only against the contracts:

- the lifecycle of one table's order;
- the price snapshot and merge of lines, and catalogue edits leaving line totals alone;
- quantities below one refused by the column's range check or by the form;
- the closed-order freeze;
- the table-deactivation guard.

The model follows the code on these points:

- `create_order` checks for an open order at the table before it checks that the table is
  active.
- The "quantity at least 1" check lives in the order-line forms, not in `create_order_item`.
- `Table.number` has no uniqueness constraint; two tables may share a number.
- Of the two `validate_quantity` definitions in `OrderItemCreateSerializer`, the later one
  (`<= 0`) replaces the earlier one (`< 0`), so only the later one is modelled.
- The table model shown has neither `has_active_order` nor `modified_by`. `Table` gets a
  `modifiedBy` field, and `HasActiveOrder` is computed from the orders with a status outside
  FINAL_STATUSES, as the table selector does.

## Model

| member | source | states |
|---|---|---|
| `OrderStatus.Code` | orders/models.py:12-17 | The value stored in the status column for each status |
| `OrderStatus.CodesAreDistinct` | orders/models.py:12-17 | Distinct statuses are stored as distinct codes, so the column determines the status |
| `OrderStatus.ValidTransitions` | orders/models.py:28-35 | The transition table: no status leads back to CREATED, CREATED has at most two successors, and every other status at most one |
| `OrderStatus.IsActiveStatus` | orders/models.py:40-42 | A status is open exactly when its stored code is neither "PAID" nor "CANCELLED" |
| `OrderStatus.ClosedIffNoExits` | orders/models.py:28-42 | A status is closed (PAID or CANCELLED) exactly when its transition set is empty |
| `OrderStatus.TransitionMovesForward` | orders/models.py:28-35 | Every allowed move starts from an open status and goes strictly forward in the lifecycle |
| `OrderStatus.PathMovesForward` | orders/models.py:28-35 | Along any chain of allowed moves, each move advances at least one stage |
| `OrderStatus.NoStatusRevisited` | orders/models.py:28-35 | No chain of allowed moves returns to a status it has left (the machine has no cycles) |
| `OrderStatus.LifecycleIsBounded` | orders/models.py:28-35 | Every chain of allowed moves visits at most five statuses |
| `OrderStatus.ClosedIsFinal` | orders/models.py:33-34 | Once a chain reaches PAID or CANCELLED it ends there: a closed order never reopens |
| `OrderStatus.LifecycleShape` | orders/models.py:28-32 | CREATED→IN_PREPARATION→READY→DELIVERED→PAID and CREATED→CANCELLED are allowed; CANCELLED is CREATED's only other exit |
| `OrderModels.Order.constructor` | orders/models.py:20-24 | A new order has the given table and creator and status CREATED |
| `OrderModels.Order.IsActive` | orders/models.py:40-42 | An order is active exactly while the transition table still allows it a move |
| `OrderModels.Order.ChangeStatus` | orders/models.py:44-51 | Succeeds iff the target is in the current status's transition set; then the status is exactly the target, otherwise unchanged with an InvalidTransition error; only the status is written, and an inactive order never becomes active |
| `Database.Db.Valid` | order_items/models.py:9-21 | The schema's guarantees: orders reference stored tables, lines reference stored orders and (unless deleted) stored products, every price fits decimal(10,3), both unique constraints hold; so every line reaches a stored table |
| `Database.Db.UniqueProductNames` | products/models.py:7 | No two products share a name |
| `Database.Db.UniqueItems` | order_items/models.py:26-32 | No two lines of one order refer to the same (non-deleted) product |
| `Database.Db.OneActiveOrderPerTable` | orders/services.py:12-15 | Business rule guarded by create_order: at most one open order per table |
| `Database.Db.ActiveOrdersOnActiveTables` | tables/services.py:21-22 | Business rule guarded by deactivate_table and create_order: every open order sits at an active table |
| `Database.Db.PositiveQuantities` | order_items/serializers.py:32-36 | Business rule guarded by the order-line forms: every line asks for at least one unit |
| `OrderSelectors.GetOrders` | orders/selectors.py:6-7 | Returns every order, unfiltered |
| `OrderSelectors.ActiveOrdersOfTable` | orders/selectors.py:9-12 | Returns exactly the orders of the table whose status is neither PAID nor CANCELLED (sound and complete) |
| `OrderSelectors.AtMostOneActiveOrder` | orders/selectors.py:9-12 | Under the one-open-order rule the query returns at most one order |
| `Errors.Message` | orders/services.py:46-57 | Each error carries the message the code raises with it; "Order is already closed" is raised exactly by paying and by cancelling a closed order |
| `OrderServices.CreateOrder` | orders/services.py:10-23 | Fails with TableHasActiveOrder if the table has an open order (checked first), else TableInactive if the table is inactive, changing nothing; otherwise adds exactly one fresh order with status CREATED, the table and the user; preserves one-open-order-per-table and open-orders-on-active-tables |
| `OrderServices.ChangeStatus` | orders/services.py:25-26 | Delegates to Order.change_status with the same outcome; preserves the store's business rules |
| `OrderServices.StartPreparation` | orders/services.py:28-32 | Fails with OrderClosed on a closed order; otherwise the transition table decides; succeeds exactly on a CREATED order, which becomes IN_PREPARATION |
| `OrderServices.MarkReady` | orders/services.py:34-38 | Fails with OrderClosed on a closed order; succeeds exactly on IN_PREPARATION; on an open order in any other status (e.g. CREATED) the table refuses with InvalidTransition |
| `OrderServices.Deliver` | orders/services.py:40-44 | Fails with OrderClosed on a closed order; succeeds exactly on READY, which becomes DELIVERED; otherwise InvalidTransition |
| `OrderServices.PayOrder` | orders/services.py:46-53 | OrderClosed on a closed order, else NotDelivered unless DELIVERED; a DELIVERED order becomes PAID, and its table then has no open order |
| `OrderServices.CancelOrder` | orders/services.py:55-64 | OrderClosed on a closed order, else NotCancellable unless CREATED; a CREATED order becomes CANCELLED, and its table then has no open order |
| `OrderItemModels.OrderItem.constructor` | order_items/models.py:7-22 | A new line holds the given order, product (nullable), name and price snapshots and quantity |
| `OrderItemModels.OrderItem.Subtotal` | order_items/models.py:34-36 | Quantity times the snapshot price, read from the line alone: zero for an empty line, never negative for a non-negative price; a catalogue edit cannot change it (`Scenarios.CatalogueEditKeepsLineTotal`) |
| `Scenarios.CatalogueEditKeepsLineTotal` | order_items/models.py:34-36 | Renaming, repricing and deactivating any product leaves any line's quantity and subtotal as they were |
| `OrderItemSelectors.GetOrderItems` | order_items/selectors.py:12-13 | Returns every line |
| `OrderItemSelectors.GetOrderItemsByUser` | order_items/selectors.py:15-16 | Returns exactly the lines whose order was created by the user |
| `OrderItemSelectors.GetItemsOfOrder` | order_items/selectors.py:18-19 | Returns exactly the lines of the order |
| `OrderItemSelectors.GetOrderItem` | order_items/selectors.py:21-25 | Returns a line with that order and product if one exists, and none only when no line matches |
| `OrderItemSelectors.GetOrderItemIsExact` | order_items/models.py:26-32 | Because (order, product) is unique, the lookup returns a line iff that line matches the pair |
| `OrderItemSelectors.VisibleOrderItems` | order_items/views.py:18-23 | A superuser sees every line; anyone else sees only the lines of orders they created |
| `OrderItemSelectors.ItemsByUserAreItemsOfTheirOrders` | order_items/selectors.py:15-19 | A user's lines are exactly the lines of the orders that user created |
| `OrderItemServices.CreateOrderItem` | order_items/services.py:12-36 | OrderClosed on a closed order (first), else ProductInactive, with no line added or changed; an existing (order, product) line is returned with quantity old + quantity and price and name unchanged, no line added; otherwise one fresh line with the product's current name and price and the given quantity; no other line's quantity changes; the unique constraint is preserved |
| `OrderItemServices.UpdateOrderItemQuantity` | order_items/services.py:39-47 | OrderClosed on a line of a closed order, quantity unchanged; otherwise only the quantity is set |
| `OrderItemServices.DeleteOrderItem` | order_items/services.py:49-54 | OrderClosed on a line of a closed order, the line kept; otherwise exactly that line is removed |
| `OrderItemSerializers.QuantityField` | order_items/models.py:22 | The form's range check taken from the positive-integer column: refuses a negative quantity with the field's own message and passes 0 and up unchanged |
| `OrderItemSerializers.CheckQuantity` | order_items/serializers.py:32-36 | The column's range check, then validate_quantity: a negative quantity gets the field's error, 0 gets "Quantity must be at least 1", and only a quantity of at least 1 passes, unchanged |
| `OrderItemSerializers.ValidateQuantity` | order_items/serializers.py:32-36 | Refuses any quantity ≤ 0 with QuantityInvalid and returns any quantity ≥ 1 unchanged (the update form's check at lines 69-73 is the same) |
| `OrderItemSerializers.QuantityBoundary` | order_items/serializers.py:32-36 | 0 is refused by validate_quantity and −1 already by the column's range check; 1 is accepted |
| `OrderItemSerializers.Create` | order_items/serializers.py:25-30 | A negative quantity gets the column's range error and 0 gets QuantityInvalid, both before the ledger's checks; a valid request has create_order_item's outcome (merge or fresh snapshot line); lines created or merged this way keep every quantity ≥ 1 |
| `OrderItemSerializers.Update` | order_items/serializers.py:75-78 | A negative quantity gets the column's range error and 0 gets QuantityInvalid, both before the closed-order check; a valid quantity is set as update_order_item_quantity sets it; quantities stay ≥ 1 |
| `TableModels.Table.constructor` | tables/models.py:3-12 | A new table has the given number and capacity, is active, and has no modifier |
| `TableSelectors.GetTables` | tables/selectors.py:9-10 | Returns every table |
| `TableSelectors.GetAvailableTables` | tables/selectors.py:15-27 | Returns exactly the active tables without an order whose status is outside FINAL_STATUSES (sound and complete) |
| `TableSelectors.FinalStatusesAreTheClosedOnes` | tables/selectors.py:7 | FINAL_STATUSES (the constant `TableSelectors.FinalStatuses`) is exactly the set of statuses for which Order.is_active is false |
| `TableSelectors.HasActiveOrder` | tables/selectors.py:17-21 | If no order at the table has a status outside FINAL_STATUSES, every order placed at the table is closed |
| `TableSelectors.HasActiveOrderAgrees` | tables/selectors.py:17-21 | A table has an active order iff the order selector used by create_order finds an open order for it |
| `TableSelectors.AvailableIffOrderable` | tables/selectors.py:15-27 | A table is listed available exactly when create_order would open an order there (active, no open order) |
| `TableSelectors.NoOrdersNoActiveOrder` | tables/tests.py:240-243 | A table with no orders has no active order |
| `TableServices.ActivateTable` | tables/services.py:7-14 | TableAlreadyActive on an active table, which stays unchanged; otherwise the table becomes active with modified_by = user, number and capacity untouched, and it joins the available list if it has no open order |
| `TableServices.DeactivateTable` | tables/services.py:16-26 | TableAlreadyInactive first, then TableHasActiveOrders if an order is open, the table unchanged in both; otherwise inactive with modified_by = user; a table deactivated here has no open order and leaves the available list |
| `ProductModels.FitsPriceColumn` | products/models.py:8-11 | An amount in thousandths fits decimal(10,3): fewer than 10^7 whole units either way (the same column type as order_items/models.py:18-21) |
| `ProductModels.PriceColumnBounds` | products/models.py:8-11 | 9999999.999 and its negation fit the column; one thousandth beyond does not |
| `ProductModels.Product.constructor` | products/models.py:5-26 | A new product has the given name, price and creator, is active, and has no modifier |
| `ProductSelectors.GetProducts` | products/selectors.py:3-4 | Returns every product, active or not |
| `ProductSelectors.GetActiveProducts` | products/selectors.py:6-7 | Returns exactly the active products: no inactive one, and every active one |
| `ProductSelectors.CatalogueSplits` | products/selectors.py:3-7 | The active list is part of the catalogue, and what remains is exactly the inactive products |
| `ProductServices.ActivateProduct` | products/services.py:7-14 | ProductAlreadyActive on an active product, which stays unchanged; otherwise active with modified_by = user; name and price untouched; the product joins the active list |
| `ProductServices.DeactivateProduct` | products/services.py:16-23 | ProductAlreadyInactive on an inactive product, which stays unchanged; otherwise inactive with modified_by = user, with no check of open orders; name and price untouched; the product leaves the active list |
| `ProductSerializers.ValidatePrice` | products/serializers.py:16-19 | Refuses a negative price with PriceNegative and returns any other price unchanged |
| `ProductSerializers.ValidatePriceIsIdempotent` | products/serializers.py:16-19 | Checking an accepted price again gives the same result |
| `ProductSerializers.PriceBoundary` | products/serializers.py:17 | A price of 0 is accepted; one thousandth below 0 is refused |
| `AccountSerializers.LowerChar` | accounts/serializers.py:19 | Lowercasing one character: the result is never an upper-case letter, a character that is not one is kept, and the result is a lower-case letter exactly when the input was a letter of either case |
| `AccountSerializers.Lower` | accounts/serializers.py:19 | `str.lower` on the letters A to Z: same length, each character lowercased on its own, no upper-case letter left |
| `AccountSerializers.ValidateUsername` | accounts/serializers.py:18-21 | Refuses a username whose lowercase is "admin" with UsernameNotAvailable, and returns every other username unchanged |
| `AccountSerializers.RefusedExactlyCaseVariantsOfAdmin` | accounts/serializers.py:18-21 | A username is refused iff it is "admin" spelt in any mix of upper and lower case |
| `AccountSerializers.AdminSpellings` | accounts/serializers.py:18-21 | "admin", "Admin" and "ADMIN" are refused; "administrator" is accepted |
| `AccountSerializers.ValidateUsernameIsIdempotent` | accounts/serializers.py:18-20 | Checking an accepted username again gives the same result |

## Left out

- HTTP viewsets, routes, permission classes and status codes are not modelled. From the views,
  only the rule "superusers see all order lines, others their own" is kept
  (`VisibleOrderItems`).
- Authentication, token issuance, user creation and password hashing are not modelled. Users
  are plain keys (`UserId`).
- Persistence mechanics are not modelled: `save()`, timestamps, default ordering, and the
  cascades on delete. Deleting orders, tables, products or users is not modelled. A line's
  product is nullable, but nothing in the model clears it.
- Concurrent requests and transactions are not modelled; every operation runs alone.
- Creating and editing tables and products through the generic forms is not modelled. Client
  code inserts rows directly. A catalogue edit is a plain field write
  (`Scenarios.CatalogueEditKeepsLineTotal`, `Scenarios.PriceSnapshot`).
- The generic table edit form can write `is_active` directly and so bypass the deactivation
  guard. It is not modelled, so `Db.ActiveOrdersOnActiveTables` holds only over the modelled
  operations.
- The generic order form (`OrderCreateSerializer`) would skip `create_order`'s guards. As
  written it cannot insert an order: it supplies only `table`, and the required `created_by` is
  left unset. It is not modelled. A direct insert of an order row also skips the guards, so the
  one-open-order rule holds only over `CreateOrder`.
- `get_active_tables` passes a filter to `all()`, which takes none, so it has no behaviour to
  model.
- The misspelt `___str___` display method is not modelled.
- `Order.table`, `Order.createdBy` and a line's order, product, name and price snapshots are
  constants: no modelled operation changes them.
- `OrderItemServices.CreateOrderItem` and `OrderItemServices.UpdateOrderItemQuantity` take the
  quantity as a natural number, the range of the positive-integer column. The code itself
  accepts any integer there. The model cannot express a negative add that shrinks an existing
  line: on a line of 5, adding −2 stores 3. It also cannot express the storage error raised
  when a negative quantity would be stored. The column's upper bound is not modelled.
- `AccountSerializers.LowerChar`, `AccountSerializers.Lower` and `AccountSerializers.ValidateUsername` fold only the letters A to Z to lower case. Python's
  `str.lower` also folds other alphabets, but no non-ASCII character lowers to a single letter
  of "admin", so the check refuses the same names.
- The decimal field's digit-count checks on form input are not modelled. A price is a whole
  number of thousandths, and `Db.Valid` keeps stored prices within decimal(10,3).
- The forms also resolve the order and product keys and report the errors of every field at
  once. The model checks only the quantity, and reports one error.
- `OrderItemSerializers.Create` takes a non-null product. The form's `product` field is
  optional and nullable, following the nullable foreign key. A request with a null product
  passes validation. On an open order the code then fails reading `is_active` from None, which
  is not a validation error. On a closed order it gets the closed-order error. With some
  framework versions an omitted `product` raises a missing-key error in `create` instead. None
  of these requests is modelled.
- `OrderItemSerializers.Update` takes a quantity. A partial update without `quantity` makes
  `update` raise a missing-key error. That request is not modelled.
- `OrderItemSerializers.Create` follows the merge branch of `create_order_item`. The framework
  may derive a uniqueness validator for the form from the (order, product) constraint; some
  versions do. With such a version, a repeat add is refused before `create` runs, and the merge
  is reachable only by calling the service directly. That validator is not modelled.
- `OrderItemSerializers.QuantityField` models only the column's lower bound. The upper bound
  that the framework may take from the database backend is not modelled.
