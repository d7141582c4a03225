/** The discount calculator: a discount of 20 percent or more is taken off
    the price, a smaller one is ignored.  Prices are exact reals here, not
    floating point. */
module Discount {

  /** The smallest discount that is applied. */
  const Threshold: real := 20.0

  /** The price to pay: `price` reduced by `discountPercent` percent when that
      is at least 20, and `price` itself otherwise. */
  function CalculateDiscount(price: real, discountPercent: real): (finalPrice: real)
    ensures discountPercent >= Threshold ==> finalPrice == price * (100.0 - discountPercent) / 100.0
    ensures discountPercent < Threshold ==> finalPrice == price
  {
    if discountPercent >= Threshold then
      price - (price * (discountPercent / 100.0))
    else
      price
  }

  /** Exactly 20 percent already counts. */
  lemma ThresholdIsInclusive(price: real)
    ensures CalculateDiscount(price, 20.0) == price * 0.8
  {
  }

  /** For a non-negative price and a discount between 20 and 100 percent, the
      price to pay lies between 0 and the original price; at 100 percent it
      is 0. */
  lemma DiscountWithinPrice(price: real, discountPercent: real)
    requires price >= 0.0 && Threshold <= discountPercent <= 100.0
    ensures 0.0 <= CalculateDiscount(price, discountPercent) <= price
    ensures discountPercent == 100.0 ==> CalculateDiscount(price, discountPercent) == 0.0
  {
    var rest := 100.0 - discountPercent;
    assert 0.0 <= price * rest by {
      assert rest >= 0.0;
    }
    assert price * rest <= price * 100.0;
  }

  /** Nothing caps the percentage: above 100 a positive price turns negative. */
  lemma NoUpperGuard(price: real, discountPercent: real)
    requires price > 0.0 && discountPercent > 100.0
    ensures CalculateDiscount(price, discountPercent) < 0.0
  {
    var over := discountPercent - 100.0;
    assert price * over > 0.0;
    assert price * (100.0 - discountPercent) == -(price * over);
  }

  /** A larger applied discount never makes a non-negative price larger. */
  lemma DiscountMonotone(price: real, smaller: real, larger: real)
    requires price >= 0.0 && Threshold <= smaller <= larger
    ensures CalculateDiscount(price, larger) <= CalculateDiscount(price, smaller)
  {
    assert price * (100.0 - larger) <= price * (100.0 - smaller);
  }

  /** Which message the script prints, with the price it shows. */
  datatype Receipt = DiscountApplied(finalPrice: real) | NoDiscount(finalPrice: real)

  /** The script's report: "Discount applied!" on the same `>= 20` test that
      `CalculateDiscount` uses. */
  function Report(price: real, discountPercent: real): (receipt: Receipt)
    ensures receipt.DiscountApplied? <==> discountPercent >= Threshold
    ensures receipt.finalPrice == CalculateDiscount(price, discountPercent)
  {
    var finalPrice := CalculateDiscount(price, discountPercent);
    if discountPercent >= Threshold then DiscountApplied(finalPrice) else NoDiscount(finalPrice)
  }

  /** For a non-zero price the message says "applied" exactly when the price
      to pay differs from the original, that is, exactly when the discount
      branch was taken. */
  lemma ReportMatchesDiscount(price: real, discountPercent: real)
    requires price != 0.0
    ensures Report(price, discountPercent).DiscountApplied?
            <==> CalculateDiscount(price, discountPercent) != price
  {
    if discountPercent >= Threshold {
      assert price * (discountPercent / 100.0) != 0.0;
    }
  }
}
