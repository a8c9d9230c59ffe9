/** The database the two data stores share: three tables held in memory. */
module DbContext {
  import opened Types
  import opened Tables

  class RebateDbContext {
    var products: seq<Product>
    var rebates: seq<Rebate>
    var rebateCalculations: seq<RebateCalculation>

    /** A context over tables that already hold these rows. */
    constructor (products: seq<Product>, rebates: seq<Rebate>, rebateCalculations: seq<RebateCalculation>)
      ensures this.products == products
      ensures this.rebates == rebates
      ensures this.rebateCalculations == rebateCalculations
    {
      this.products := products;
      this.rebates := rebates;
      this.rebateCalculations := rebateCalculations;
    }

    /** The identifier discipline the save operations keep: no two rebates and
        no two products share an identifier. */
    ghost predicate UniqueIdentifiers()
      reads this
    {
      UniqueKeys(rebates, RebateKey) && UniqueKeys(products, ProductKey)
    }
  }
}
