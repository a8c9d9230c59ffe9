/** The records the rebate system works on: rebates, products, the calculation
    request and result, and the persisted calculation record. */
module Types {

  /** How a rebate is computed. `Undeclared` stands for any value of the
      underlying integer that is not one of the three declared members; which
      integers those are is not modelled. */
  datatype IncentiveType =
    | FixedCashAmount
    | FixedRateRebate
    | AmountPerUom
    | Undeclared

  /** One flag of a product's supported-incentive bit set. */
  datatype SupportedIncentive =
    | SupportsFixedCashAmount
    | SupportsFixedRateRebate
    | SupportsAmountPerUom

  /** A flags enumeration: the set of flags that are switched on. */
  type SupportedIncentiveType = set<SupportedIncentive>

  /** `flags.HasFlag(flag)` for a single-bit flag: the flag is switched on. */
  predicate HasFlag(flags: SupportedIncentiveType, flag: SupportedIncentive)
  {
    flag in flags
  }

  datatype Rebate = Rebate(
    identifier: string,
    incentive: IncentiveType,
    amount: real,
    percentage: real)

  datatype Product = Product(
    identifier: string,
    price: real,
    uom: string,
    supportedIncentives: SupportedIncentiveType)

  datatype CalculateRebateRequest = CalculateRebateRequest(
    rebateIdentifier: string,
    productIdentifier: string,
    volume: real)

  datatype CalculateRebateResult = CalculateRebateResult(success: bool, rebateAmount: real)

  /** A freshly constructed result: not successful, amount zero. */
  const Failed := CalculateRebateResult(false, 0.0)

  /** One row of the append-only log of successful calculations. */
  datatype RebateCalculation = RebateCalculation(
    rebateIdentifier: string,
    incentiveType: IncentiveType,
    amount: real)

  /** The key the rebate table is searched by. */
  function RebateKey(r: Rebate): string { r.identifier }

  /** The key the product table is searched by. */
  function ProductKey(p: Product): string { p.identifier }

  /** The flag a product must carry for a rebate of this kind; none for an
      undeclared kind. */
  function RequiredFlag(incentive: IncentiveType): (flag: set<SupportedIncentive>)
    ensures |flag| <= 1
    ensures flag == {} <==> incentive.Undeclared?
  {
    match incentive
    case FixedCashAmount => {SupportsFixedCashAmount}
    case FixedRateRebate => {SupportsFixedRateRebate}
    case AmountPerUom => {SupportsAmountPerUom}
    case Undeclared => {}
  }
}
