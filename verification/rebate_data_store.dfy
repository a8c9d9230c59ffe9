/** The rebate store: lookup by identifier, insert-if-absent, and the
    append-only log of calculation records. */
module RebateData {
  import opened Types
  import opened Tables
  import opened DbContext

  class RebateDataStore {
    const dbContext: RebateDbContext

    constructor (dbContext: RebateDbContext)
      ensures this.dbContext == dbContext
    {
      this.dbContext := dbContext;
    }

    /** The first rebate whose identifier matches, or none. */
    method GetRebateAsync(rebateIdentifier: string) returns (rebate: Option<Rebate>)
      ensures rebate == FirstOrDefault(dbContext.rebates, RebateKey, rebateIdentifier)
      ensures rebate.Some? <==> exists i :: 0 <= i < |dbContext.rebates| && dbContext.rebates[i].identifier == rebateIdentifier
      ensures rebate.Some? ==> rebate.value in dbContext.rebates && rebate.value.identifier == rebateIdentifier
    {
      rebate := FirstOrDefault(dbContext.rebates, RebateKey, rebateIdentifier);
    }

    /** Adds `rebate` only when no rebate has its identifier yet; an existing
        rebate is never overwritten, and nothing else changes. */
    method SaveRebateAsync(rebate: Rebate)
      modifies dbContext
      ensures dbContext.rebates == SaveIfAbsent(old(dbContext.rebates), RebateKey, rebate)
      ensures old(HasKey(dbContext.rebates, RebateKey, rebate.identifier)) ==> dbContext.rebates == old(dbContext.rebates)
      ensures !old(HasKey(dbContext.rebates, RebateKey, rebate.identifier)) ==> dbContext.rebates == old(dbContext.rebates) + [rebate]
      ensures dbContext.products == old(dbContext.products)
      ensures dbContext.rebateCalculations == old(dbContext.rebateCalculations)
      ensures old(dbContext.UniqueIdentifiers()) ==> dbContext.UniqueIdentifiers()
    {
      var obj := GetRebateAsync(rebate.identifier);
      if obj.None? {
        dbContext.rebates := dbContext.rebates + [rebate];
      }
      if old(dbContext.UniqueIdentifiers()) {
        SavePreservesUniqueKeys(old(dbContext.rebates), RebateKey, rebate);
      }
    }

    /** Appends exactly one record of a successful calculation for `account`. */
    method StoreCalculationResultAsync(account: Rebate, rebateAmount: real)
      modifies dbContext
      ensures dbContext.rebateCalculations ==
        old(dbContext.rebateCalculations) + [RebateCalculation(account.identifier, account.incentive, rebateAmount)]
      ensures dbContext.rebates == old(dbContext.rebates)
      ensures dbContext.products == old(dbContext.products)
    {
      var calculation := RebateCalculation(account.identifier, account.incentive, rebateAmount);
      dbContext.rebateCalculations := dbContext.rebateCalculations + [calculation];
    }
  }
}
