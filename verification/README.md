# Smartwyre rebate calculation — a Dafny model

The system computes a monetary rebate for a rebate, a product and a volume.
It persists rebates and products, and keeps a log of successful calculations.

The model has four parts:

- **The rebate rule** (`RebateCalculator.Calculate`). This is a closed three-way dispatch on the
  rebate's incentive type: `FixedCashAmount`, `FixedRateRebate` or `AmountPerUom`. Each case has
  its own guard (a zero amount, percentage, price or volume, or a product that lacks the
  incentive's flag) and its own formula. An incentive value that names none of the three kinds
  fails, because the source's `switch` has no `default` branch.
- **The tables** (`Tables`). Each database table is a sequence of rows. The first-match query is
  `FirstOrDefault`, and insert-if-absent is `SaveIfAbsent`. Lemmas cover lookup after save,
  idempotence, no-overwrite, preservation of identifier uniqueness, and order-independence of
  lookup when identifiers are unique.
- **The data stores** (`RebateData.RebateDataStore`, `ProductData.ProductDataStore`). These are
  classes over one shared `DbContext.RebateDbContext`, which holds three `seq` tables. The
  methods that write to the tables state the whole new state of every table.
- **The service** (`Services.RebateService`). `CalculateAsync` looks up the rebate and the
  product, applies the rule, and appends exactly one calculation record iff the rule succeeds.
  `InsertRebateAndProduct` saves the rebate and then the product. The service does not assume
  that its two stores share one context.

C# `decimal` is modelled as exact `real`. `SupportedIncentiveType` is a flags enumeration; it is
modelled as a set of flags, and `HasFlag` is modelled as membership. A failed result is
`CalculateRebateResult(false, 0.0)`, which matches a freshly constructed C# result.

## Model

| member | source | states |
|---|---|---|
| `Tables.FirstIndex` | Smartwyre.DeveloperTest/Data/RebateDataStore.cs:19 | the position found holds a matching row and no earlier row matches; none is found only when no row matches |
| `Tables.FirstOrDefault` | Smartwyre.DeveloperTest/Data/ProductDataStore.cs:27 | a row is returned iff some row has the identifier; the row returned is in the table and has that identifier |
| `Tables.SaveIfAbsent` | Smartwyre.DeveloperTest/Data/RebateDataStore.cs:22-31 | the row is appended iff no row has its identifier; otherwise the table is unchanged |
| `Tables.UniqueKeyLookup` | Smartwyre.DeveloperTest/Data/ProductDataStore.cs:25-28 | when identifiers are unique, a lookup by any row's identifier returns that row, so scan order does not matter |
| `Tables.FirstOrDefaultAppend` | Smartwyre.DeveloperTest/Data/RebateDataStore.cs:28 | appending a row leaves every lookup that already succeeded unchanged; only the new row's identifier can newly be found, and it finds that row |
| `Tables.LookupAfterSave` | Smartwyre.DeveloperTest/Data/RebateDataStore.cs:24-29 | after a save, the lookup by the saved identifier succeeds; it returns the saved row if the identifier was absent, and the existing row otherwise |
| `Tables.SaveKeepsOtherLookups` | Smartwyre.DeveloperTest/Data/ProductDataStore.cs:17-22 | a save never changes what an existing identifier finds, so an existing row is never overwritten |
| `Tables.SaveIdempotent` | Smartwyre.DeveloperTest/Data/ProductDataStore.cs:15-23 | a second save with the same identifier leaves the table exactly as after the first |
| `Tables.SavePreservesUniqueKeys` | Smartwyre.DeveloperTest/Data/RebateDataStore.cs:22-31 | if identifiers were unique before a save, they are unique after it |
| `RebateData.RebateDataStore.GetRebateAsync` | Smartwyre.DeveloperTest/Data/RebateDataStore.cs:17-20 | returns the first rebate with the identifier; returns a rebate iff one exists, and the rebate returned is in the table with that identifier |
| `RebateData.RebateDataStore.SaveRebateAsync` | Smartwyre.DeveloperTest/Data/RebateDataStore.cs:22-31 | the rebate is appended iff its identifier was absent; products and calculation records are unchanged; unique identifiers stay unique |
| `RebateData.RebateDataStore.StoreCalculationResultAsync` | Smartwyre.DeveloperTest/Data/RebateDataStore.cs:33-44 | appends exactly one record (the rebate's identifier, its incentive, the amount); rebates and products are unchanged |
| `ProductData.ProductDataStore.SaveProductAsync` | Smartwyre.DeveloperTest/Data/ProductDataStore.cs:15-23 | the product is appended iff its identifier was absent; rebates and calculation records are unchanged; unique identifiers stay unique |
| `ProductData.ProductDataStore.GetProductAsync` | Smartwyre.DeveloperTest/Data/ProductDataStore.cs:25-28 | returns the first product with the identifier; returns a product iff one exists, and the product returned is in the table with that identifier |
| `RebateCalculator.Calculate` | Smartwyre.DeveloperTest/Services/RebateService.cs:42-81 | succeeds iff the amount is non-zero; success requires the incentive to be one of the three kinds and the product to carry that kind's flag |
| `RebateCalculator.FixedCashAmountRule` | Smartwyre.DeveloperTest/Services/RebateService.cs:46-56 | FixedCashAmount succeeds iff the amount is non-zero and the FixedCashAmount flag is set; it then pays the rebate's amount |
| `RebateCalculator.FixedCashAmountIgnoresVolumeAndPrice` | Smartwyre.DeveloperTest/Services/RebateService.cs:47-53 | for FixedCashAmount, the outcome does not depend on the volume or the price |
| `RebateCalculator.FixedRateRebateRule` | Smartwyre.DeveloperTest/Services/RebateService.cs:58-68 | FixedRateRebate succeeds iff percentage, price and volume are non-zero and the flag is set; it then pays price × percentage × volume |
| `RebateCalculator.AmountPerUomRule` | Smartwyre.DeveloperTest/Services/RebateService.cs:70-80 | AmountPerUom succeeds iff amount and volume are non-zero and the flag is set; it then pays amount × volume |
| `RebateCalculator.UndeclaredIncentiveFails` | Smartwyre.DeveloperTest/Services/RebateService.cs:44-81 | an incentive value naming no declared kind fails with amount zero |
| `RebateCalculator.SupportIsMembership` | Smartwyre.DeveloperTest/Services/RebateService.cs:42-71 | flags affect the outcome only through membership of the one flag the incentive needs; other flags do not matter |
| `RebateCalculator.UnitTestOutcomes` | Smartwyre.DeveloperTest.Tests/RebateService.Tests.cs:12-243 | the six calculation tests give the expected outcomes, e.g. 200 × 0.1 × 5 = 100 |
| `Services.Evaluate` | Smartwyre.DeveloperTest/Services/RebateService.cs:28-39 | if the rebate or the product is missing, the result is failure with amount zero; success implies the rebate exists; a failure always carries amount zero |
| `Services.RecordFor` | Smartwyre.DeveloperTest/Data/RebateDataStore.cs:35-40 | the logged record carries the requested rebate identifier, the incentive of the very rebate the lookup returned (the one the rule used), and the amount |
| `Services.RebateService.InsertRebateAndProduct` | Smartwyre.DeveloperTest/Services/RebateService.cs:19-23 | saves the rebate if absent and then the product if absent, and changes nothing else |
| `Services.RebateService.CalculateAsync` | Smartwyre.DeveloperTest/Services/RebateService.cs:25-91 | the result is the lookup-then-rule outcome; exactly one record carrying the returned amount is appended iff the result succeeds; no other table changes |

## Left out

- Asynchrony (`Task`, `await`) and `SaveChangesAsync`: each store call is a synchronous update of in-memory tables.
- Exceptions from storage and C# `decimal` overflow: the model never throws.
- The 28-digit rounding of `decimal` multiplication: the model uses exact arithmetic. One consequence is that `Calculate` proves a successful amount is never zero. With real `decimal`, a product of very small factors could round to zero.
- The `decimal(18,2)` column rounding applied when a row is persisted (in `RebateDBContext.cs` and the migration snapshot). This is a database effect.
- RebateData.RebateDataStore.GetRebateAsync: matches identifiers by exact string equality. The database compares with its column collation, which ignores trailing spaces and usually ignores case. So a lookup of "r1 " finds a stored "R1" in the database, but not in the model.
- ProductData.ProductDataStore.GetProductAsync: matches identifiers by exact string equality, with no collation and no trailing-space padding, for the same reason as `GetRebateAsync`.
- Tables.SaveIfAbsent: decides "absent" by exact string equality. In the database, saving "r1 " beside a stored "R1" adds nothing. The model appends a second row, and `Tables.UniqueKeys` counts the two identifiers as distinct.
- SQL ordering: `FirstOrDefaultAsync` without `ORDER BY` has no guaranteed order. The model scans the table in insertion order. `Tables.UniqueKeyLookup` shows that the order does not matter while identifiers are unique, and the saves keep them unique.
- The database-generated `Id` columns of rebates, products and calculation records, and the `Identifier` column of a calculation record, which the source never sets. No logic reads them.
- Null identifiers and null record references: identifiers are plain strings, and a missing row is `None`.
- The numeric values of the flag enumerations are not part of this model: `HasFlag` is modelled as set membership. If a flag had the value zero, `HasFlag` would always be true in C#.
- The console entry point `Smartwyre.DeveloperTest.Runner/Program.cs` (prompting, input retry loops, dependency-injection wiring): this is input/output plumbing.
