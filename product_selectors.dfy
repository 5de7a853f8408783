/** Queries over the catalogue (products/selectors.py). */
module ProductSelectors {
  import opened ProductModels
  import opened Database

  /** get_products: every product, active or not. */
  function GetProducts(db: Db): (r: set<Product>)
    reads db
    ensures r == db.products
  {
    db.products
  }

  /** get_active_products: exactly the active products. */
  function GetActiveProducts(db: Db): (r: set<Product>)
    reads db, db.products
    ensures forall p :: p in r ==> p in db.products && p.isActive
    ensures forall p :: p in db.products && p.isActive ==> p in r
  {
    set p | p in db.products && p.isActive
  }

  /** The catalogue splits into the active list and the products that are off sale. */
  lemma CatalogueSplits(db: Db)
    ensures GetActiveProducts(db) <= GetProducts(db)
    ensures GetProducts(db) - GetActiveProducts(db) == set p | p in db.products && !p.isActive
  {
  }
}
