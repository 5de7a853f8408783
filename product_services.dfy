/**
 * Product activation toggles (products/services.py). Toggling to the current state is an error.
 * Unlike tables, deactivating a product is not blocked by open orders.
 */
module ProductServices {
  import opened Common
  import opened Errors
  import opened ProductModels
  import opened Database
  import opened ProductSelectors

  /** activate_product: refuses an active product; otherwise activates it and records the user. */
  method ActivateProduct(ghost db: Db, product: Product, user: UserId) returns (r: Outcome)
    modifies product
    ensures old(product.isActive) ==> r == Fail(ProductAlreadyActive) && unchanged(product)
    ensures !old(product.isActive) ==> r == Pass && product.isActive && product.modifiedBy == Some(user)
    ensures product.name == old(product.name) && product.price == old(product.price)
    ensures product.createdBy == old(product.createdBy)
    ensures r.Pass? && product in db.products ==>
      GetActiveProducts(db) == old(GetActiveProducts(db)) + {product}
    ensures old(db.Valid()) ==> db.Valid()
  {
    if product.isActive {
      return Fail(ProductAlreadyActive);
    }
    product.isActive := true;
    product.modifiedBy := Some(user);
    return Pass;
  }

  /** deactivate_product: refuses an inactive product; otherwise deactivates it and records the user. */
  method DeactivateProduct(ghost db: Db, product: Product, user: UserId) returns (r: Outcome)
    modifies product
    ensures !old(product.isActive) ==> r == Fail(ProductAlreadyInactive) && unchanged(product)
    ensures old(product.isActive) ==> r == Pass && !product.isActive && product.modifiedBy == Some(user)
    ensures product.name == old(product.name) && product.price == old(product.price)
    ensures product.createdBy == old(product.createdBy)
    ensures r.Pass? ==> GetActiveProducts(db) == old(GetActiveProducts(db)) - {product}
    ensures old(db.Valid()) ==> db.Valid()
  {
    if !product.isActive {
      return Fail(ProductAlreadyInactive);
    }
    product.isActive := false;
    product.modifiedBy := Some(user);
    return Pass;
  }
}
