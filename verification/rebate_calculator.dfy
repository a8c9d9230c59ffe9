/** The rebate rule: a closed three-way dispatch on the rebate's incentive,
    each branch with its own guard and formula. */
module RebateCalculator {
  import opened Types

  /** The outcome of the incentive dispatch for a rebate and product that were
      both found. A failure carries amount zero. */
  function Calculate(rebate: Rebate, product: Product, volume: real): (r: CalculateRebateResult)
    ensures r.success <==> r.rebateAmount != 0.0
    ensures r.success ==> RequiredFlag(rebate.incentive) <= product.supportedIncentives
    ensures r.success ==> !rebate.incentive.Undeclared?
  {
    var flags := product.supportedIncentives;
    match rebate.incentive
    case FixedCashAmount =>
      if rebate.amount == 0.0 || !HasFlag(flags, SupportsFixedCashAmount) then Failed
      else CalculateRebateResult(true, rebate.amount)
    case FixedRateRebate =>
      if rebate.percentage == 0.0 || product.price == 0.0 || volume == 0.0 || !HasFlag(flags, SupportsFixedRateRebate) then Failed
      else CalculateRebateResult(true, product.price * rebate.percentage * volume)
    case AmountPerUom =>
      if rebate.amount == 0.0 || volume == 0.0 || !HasFlag(flags, SupportsAmountPerUom) then Failed
      else CalculateRebateResult(true, rebate.amount * volume)
    case Undeclared => Failed
  }

  /** FixedCashAmount succeeds exactly when the amount is non-zero and the
      product carries the FixedCashAmount flag; it then pays the amount. */
  lemma FixedCashAmountRule(rebate: Rebate, product: Product, volume: real)
    requires rebate.incentive == FixedCashAmount
    ensures Calculate(rebate, product, volume).success <==>
      rebate.amount != 0.0 && SupportsFixedCashAmount in product.supportedIncentives
    ensures Calculate(rebate, product, volume).success ==>
      Calculate(rebate, product, volume).rebateAmount == rebate.amount
  {
  }

  /** The FixedCashAmount outcome depends neither on the volume nor on the
      price, only on the rebate and the product's flags. */
  lemma FixedCashAmountIgnoresVolumeAndPrice(rebate: Rebate, p1: Product, p2: Product, v1: real, v2: real)
    requires rebate.incentive == FixedCashAmount
    requires p1.supportedIncentives == p2.supportedIncentives
    ensures Calculate(rebate, p1, v1) == Calculate(rebate, p2, v2)
  {
  }

  /** FixedRateRebate succeeds exactly when percentage, price and volume are
      all non-zero and the product carries the FixedRateRebate flag; it then
      pays price times percentage times volume. */
  lemma FixedRateRebateRule(rebate: Rebate, product: Product, volume: real)
    requires rebate.incentive == FixedRateRebate
    ensures Calculate(rebate, product, volume).success <==>
      rebate.percentage != 0.0 && product.price != 0.0 && volume != 0.0 &&
      SupportsFixedRateRebate in product.supportedIncentives
    ensures Calculate(rebate, product, volume).success ==>
      Calculate(rebate, product, volume).rebateAmount == product.price * rebate.percentage * volume
  {
  }

  /** AmountPerUom succeeds exactly when amount and volume are non-zero and
      the product carries the AmountPerUom flag; it then pays amount times
      volume. */
  lemma AmountPerUomRule(rebate: Rebate, product: Product, volume: real)
    requires rebate.incentive == AmountPerUom
    ensures Calculate(rebate, product, volume).success <==>
      rebate.amount != 0.0 && volume != 0.0 && SupportsAmountPerUom in product.supportedIncentives
    ensures Calculate(rebate, product, volume).success ==>
      Calculate(rebate, product, volume).rebateAmount == rebate.amount * volume
  {
  }

  /** An incentive value naming none of the three kinds never succeeds. */
  lemma UndeclaredIncentiveFails(rebate: Rebate, product: Product, volume: real)
    requires rebate.incentive.Undeclared?
    ensures Calculate(rebate, product, volume) == Failed
  {
  }

  /** Support is a membership test: the outcome depends on the product's flags
      only through whether the one flag the incentive needs is among them, so
      a product carrying several flags passes the check for each of them. */
  lemma SupportIsMembership(rebate: Rebate, p1: Product, p2: Product, volume: real)
    requires p1.price == p2.price
    requires RequiredFlag(rebate.incentive) <= p1.supportedIncentives <==>
             RequiredFlag(rebate.incentive) <= p2.supportedIncentives
    ensures Calculate(rebate, p1, volume) == Calculate(rebate, p2, volume)
  {
  }

  /** The expected outcomes of the service's unit tests, with exact decimals. */
  lemma UnitTestOutcomes()
    ensures Calculate(Rebate("", FixedCashAmount, 50.0, 0.0),
                      Product("", 100.0, "", {SupportsFixedCashAmount}), 10.0) == CalculateRebateResult(true, 50.0)
    ensures Calculate(Rebate("", FixedRateRebate, 0.0, 0.1),
                      Product("", 200.0, "", {SupportsFixedRateRebate}), 5.0) == CalculateRebateResult(true, 100.0)
    ensures Calculate(Rebate("", AmountPerUom, 5.0, 0.0),
                      Product("", 100.0, "", {SupportsAmountPerUom}), 10.0) == CalculateRebateResult(true, 50.0)
    ensures Calculate(Rebate("", FixedCashAmount, 0.0, 0.0),
                      Product("", 100.0, "", {SupportsFixedCashAmount}), 10.0) == Failed
    ensures Calculate(Rebate("", FixedRateRebate, 0.0, 0.1),
                      Product("", 200.0, "", {SupportsFixedRateRebate}), 0.0) == Failed
    ensures Calculate(Rebate("", AmountPerUom, 5.0, 0.0),
                      Product("", 100.0, "", {SupportsAmountPerUom}), 0.0) == Failed
  {
  }
}
