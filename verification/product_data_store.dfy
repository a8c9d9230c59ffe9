/** The product store: lookup by identifier and insert-if-absent. */
module ProductData {
  import opened Types
  import opened Tables
  import opened DbContext

  class ProductDataStore {
    const dbContext: RebateDbContext

    constructor (dbContext: RebateDbContext)
      ensures this.dbContext == dbContext
    {
      this.dbContext := dbContext;
    }

    /** Adds `product` only when no product has its identifier yet; an
        existing product is never overwritten, and nothing else changes. */
    method SaveProductAsync(product: Product)
      modifies dbContext
      ensures dbContext.products == SaveIfAbsent(old(dbContext.products), ProductKey, product)
      ensures old(HasKey(dbContext.products, ProductKey, product.identifier)) ==> dbContext.products == old(dbContext.products)
      ensures !old(HasKey(dbContext.products, ProductKey, product.identifier)) ==> dbContext.products == old(dbContext.products) + [product]
      ensures dbContext.rebates == old(dbContext.rebates)
      ensures dbContext.rebateCalculations == old(dbContext.rebateCalculations)
      ensures old(dbContext.UniqueIdentifiers()) ==> dbContext.UniqueIdentifiers()
    {
      var obj := GetProductAsync(product.identifier);
      if obj.None? {
        dbContext.products := dbContext.products + [product];
      }
      if old(dbContext.UniqueIdentifiers()) {
        SavePreservesUniqueKeys(old(dbContext.products), ProductKey, product);
      }
    }

    /** The first product whose identifier matches, or none. */
    method GetProductAsync(productIdentifier: string) returns (product: Option<Product>)
      ensures product == FirstOrDefault(dbContext.products, ProductKey, productIdentifier)
      ensures product.Some? <==> exists i :: 0 <= i < |dbContext.products| && dbContext.products[i].identifier == productIdentifier
      ensures product.Some? ==> product.value in dbContext.products && product.value.identifier == productIdentifier
    {
      product := FirstOrDefault(dbContext.products, ProductKey, productIdentifier);
    }
  }
}
