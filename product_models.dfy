/**
 * A catalogue product (products/models.py). Prices are decimal(10,3) in the source; here they
 * are whole numbers of thousandths, so 10.000 is 10000.
 */
module ProductModels {
  import opened Common

  /** Thousandths in one unit of currency (three decimal places). */
  const PriceScale: int := 1000

  /** The least magnitude a decimal(10,3) column cannot hold, in thousandths: 10^7 units. */
  const PriceLimit: int := 10_000_000 * PriceScale

  /** Whether an amount in thousandths fits a decimal column with 10 digits, 3 of them decimals. */
  predicate FitsPriceColumn(amount: int)
  {
    -PriceLimit < amount < PriceLimit
  }

  /**
   * The extremes of decimal(10,3): 9999999.999 and its negation fit, one thousandth more does
   * not.
   */
  lemma PriceColumnBounds()
    ensures FitsPriceColumn(9_999_999_999) && FitsPriceColumn(-9_999_999_999)
    ensures !FitsPriceColumn(10_000_000_000) && !FitsPriceColumn(-10_000_000_000)
  {
  }

  class Product {
    var name: string
    /** Current price, in thousandths. */
    var price: int
    var isActive: bool
    var createdBy: Option<UserId>
    var modifiedBy: Option<UserId>

    /** A new product is active and has not been toggled by anyone. */
    constructor (name: string, price: int, createdBy: Option<UserId>)
      requires FitsPriceColumn(price)
      ensures this.name == name && this.price == price && this.createdBy == createdBy
      ensures isActive && modifiedBy == None
    {
      this.name := name;
      this.price := price;
      this.createdBy := createdBy;
      isActive := true;
      modifiedBy := None;
    }
  }
}
