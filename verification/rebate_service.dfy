/** The application service: fetches the rebate and the product, runs the
    rebate rule, and records a successful calculation. */
module Services {
  import opened Types
  import opened Tables
  import opened RebateData
  import opened ProductData
  import opened RebateCalculator

  /** What a calculation request yields against these tables: failure when
      either lookup finds nothing, otherwise the rebate rule's outcome. */
  function Evaluate(rebates: seq<Rebate>, products: seq<Product>, request: CalculateRebateRequest): (r: CalculateRebateResult)
    ensures !HasKey(rebates, RebateKey, request.rebateIdentifier) ==> r == Failed
    ensures !HasKey(products, ProductKey, request.productIdentifier) ==> r == Failed
    ensures r.success ==> exists i :: 0 <= i < |rebates| && rebates[i].identifier == request.rebateIdentifier
    ensures !r.success ==> r.rebateAmount == 0.0
  {
    var rebate := FirstOrDefault(rebates, RebateKey, request.rebateIdentifier);
    var product := FirstOrDefault(products, ProductKey, request.productIdentifier);
    if rebate.None? || product.None? then Failed
    else Calculate(rebate.value, product.value, request.volume)
  }

  /** The record a successful request appends: it names the rebate that the
      lookup found and the rule used, and carries the computed amount. */
  function RecordFor(rebates: seq<Rebate>, request: CalculateRebateRequest, amount: real): (c: RebateCalculation)
    requires HasKey(rebates, RebateKey, request.rebateIdentifier)
    ensures c.rebateIdentifier == request.rebateIdentifier
    ensures c.amount == amount
    ensures c.incentiveType == FirstOrDefault(rebates, RebateKey, request.rebateIdentifier).value.incentive
    ensures exists i :: 0 <= i < |rebates| && rebates[i].identifier == request.rebateIdentifier &&
                        rebates[i].incentive == c.incentiveType
  {
    var rebate := FirstOrDefault(rebates, RebateKey, request.rebateIdentifier).value;
    RebateCalculation(rebate.identifier, rebate.incentive, amount)
  }

  class RebateService {
    const rebateDataStore: RebateDataStore
    const productDataStore: ProductDataStore

    constructor (rebateDataStore: RebateDataStore, productDataStore: ProductDataStore)
      ensures this.rebateDataStore == rebateDataStore
      ensures this.productDataStore == productDataStore
    {
      this.rebateDataStore := rebateDataStore;
      this.productDataStore := productDataStore;
    }

    /** Saves the rebate, then the product, each only if its identifier is not
        yet present. The two stores may or may not share one context. */
    method InsertRebateAndProduct(rebate: Rebate, product: Product)
      modifies rebateDataStore.dbContext, productDataStore.dbContext
      ensures rebateDataStore.dbContext.rebates ==
        SaveIfAbsent(old(rebateDataStore.dbContext.rebates), RebateKey, rebate)
      ensures productDataStore.dbContext.products ==
        SaveIfAbsent(old(productDataStore.dbContext.products), ProductKey, product)
      ensures rebateDataStore.dbContext != productDataStore.dbContext ==>
        rebateDataStore.dbContext.products == old(rebateDataStore.dbContext.products) &&
        productDataStore.dbContext.rebates == old(productDataStore.dbContext.rebates)
      ensures rebateDataStore.dbContext.rebateCalculations == old(rebateDataStore.dbContext.rebateCalculations)
      ensures productDataStore.dbContext.rebateCalculations == old(productDataStore.dbContext.rebateCalculations)
    {
      rebateDataStore.SaveRebateAsync(rebate);
      productDataStore.SaveProductAsync(product);
    }

    /** Looks up the rebate and the product; when both exist, applies the
        rebate rule and, exactly when it succeeds, appends one calculation
        record with the returned amount. No table other than the calculation
        log changes. */
    method CalculateAsync(request: CalculateRebateRequest) returns (result: CalculateRebateResult)
      modifies rebateDataStore.dbContext
      ensures result == Evaluate(old(rebateDataStore.dbContext.rebates), old(productDataStore.dbContext.products), request)
      ensures !result.success ==>
        rebateDataStore.dbContext.rebateCalculations == old(rebateDataStore.dbContext.rebateCalculations)
      ensures result.success ==>
        rebateDataStore.dbContext.rebateCalculations == old(rebateDataStore.dbContext.rebateCalculations) +
          [RecordFor(old(rebateDataStore.dbContext.rebates), request, result.rebateAmount)]
      ensures rebateDataStore.dbContext.rebates == old(rebateDataStore.dbContext.rebates)
      ensures rebateDataStore.dbContext.products == old(rebateDataStore.dbContext.products)
      ensures productDataStore.dbContext.products == old(productDataStore.dbContext.products)
    {
      var rebate := rebateDataStore.GetRebateAsync(request.rebateIdentifier);
      var product := productDataStore.GetProductAsync(request.productIdentifier);

      result := Failed;
      var rebateAmount := 0.0;

      if rebate.None? || product.None? {
        result := result.(success := false);
        return;
      } else {
        var outcome := Calculate(rebate.value, product.value, request.volume);
        result := result.(success := outcome.success);
        rebateAmount := rebateAmount + outcome.rebateAmount;
      }

      if result.success {
        rebateDataStore.StoreCalculationResultAsync(rebate.value, rebateAmount);
        result := result.(rebateAmount := rebateAmount);
      }
    }
  }
}
