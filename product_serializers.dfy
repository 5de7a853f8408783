/** The price check of the product creation form (products/serializers.py). */
module ProductSerializers {
  import opened Errors

  /** ProductCreateSerializer.validate_price: refuses a negative price and passes any other through. */
  function ValidatePrice(price: int): (r: Result<int>)
    ensures r.Ok? <==> price >= 0
    ensures r.Ok? ==> r.value == price
    ensures r.Err? ==> r.error == PriceNegative
  {
    if price < 0 then Err(PriceNegative) else Ok(price)
  }

  /** The check is the identity on what it accepts, so running it again changes nothing. */
  lemma ValidatePriceIsIdempotent(price: int)
    ensures ValidatePrice(price).Ok? ==> ValidatePrice(ValidatePrice(price).value) == ValidatePrice(price)
  {
  }

  /** A free product (price 0) is accepted; one thousandth below zero is not. */
  lemma PriceBoundary()
    ensures ValidatePrice(0) == Ok(0)
    ensures ValidatePrice(-1) == Err(PriceNegative)
  {
  }
}
