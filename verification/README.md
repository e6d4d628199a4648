# Product pricing, catalog grouping and the idempotent discount ledger

A Dafny model of the core of a small Ktor product service. The service keeps
a catalog of products with a country-dependent VAT rate and stacked
percentage discounts, lists the products of a country, and attaches a
discount to a product at most once, even when the same request arrives many
times at once. Three pieces of sequential logic carry that behaviour, and
each has its own module:

- `ProductDomain` (`product_domain.dfy`): the `Discount` and `Product`
  records, the VAT table `vatFor` and the derived `finalPrice`: the base
  price times `max(0, 1 − Σpercent/100)` times `1 + vat/100`, rounded to
  cents with Kotlin's `round`, which breaks ties towards the even integer.
- `CatalogReader` (`catalog_reader.dfy`): `listByCountry`, which filters the
  product/discount outer join on the lower-cased country and folds its rows
  into one product per distinct id, in first-occurrence order. The fold is a
  method with a loop, `GroupRows`. It is proved equal to reference
  definitions of the distinct ids, the first row of each id and the
  discounts of each id.
- `DiscountLedger` (`discount_ledger.dfy`): `applyDiscount` as one atomic
  step `ApplyDiscount(store, request, faults) → (outcome, store')`. The step
  validates the percent, checks that the product exists, then attempts the
  INSERT keyed by `(productId, discountId)`. A failure of the existence
  check escapes as it is. A failed INSERT whose
  lower-cased message mentions "unique", "duplicate" or "primary key" is an
  idempotent success; any other failure is re-thrown. `Run` applies a
  sequence of such steps, which is how concurrent calls are modelled. The
  theorems over runs say that a key is reported `Applied` exactly once if it
  was added and never otherwise. N identical valid fault-free calls on an
  existing product with a key not yet stored give exactly one `Applied`,
  N − 1 `AlreadyApplied` and one new ledger row; once the key is stored,
  every further call observes `AlreadyApplied`.

`Text` (`text.dfy`) holds the ASCII lower-casing, the substring search and
the string order. `Wrappers` (`wrappers.dfy`) holds `Option`, which stands in
for Kotlin's nullable types.

Prices and percents are `real`. The store is a set of product ids plus the
ledger, a `map<(string, string), real>` whose keys are the composite primary
key of `product_discounts` (database/ProductSchema.kt:24), so a key has at
most one row. Four things the service receives from outside become
parameters:

- the rows the catalog query returns;
- the storage failures, if any, that a given call meets (`faults`: one for
  the connection and existence check, one for the INSERT);
- the database driver, which decides the wording of the duplicate-key
  error;
- the order in which the storage engine serialises concurrent calls (the
  order of the `Run` sequence).

## Model

| member | source | states |
|---|---|---|
| `Text.Lower` | src/main/kotlin/model/ProductDomain.kt:31 | lower-casing keeps the length and lower-cases each character in place |
| `Text.LowerEqualIffEqualsIgnoreCase` | src/main/kotlin/service/ProductService.kt:17 | `LOWER(a) = LOWER(b)` holds exactly when the two strings are equal character by character ignoring case |
| `Text.ContainsIffOccurs` | src/main/kotlin/service/ProductService.kt:80 | the front-to-back search `contains` succeeds exactly when the word occurs at some position of the message |
| `ProductDomain.VatFor` | src/main/kotlin/model/ProductDomain.kt:30-36 | VAT is 25, 19 or 20 exactly when the country is sweden, germany or france ignoring case, and 0 exactly for every other name |
| `ProductDomain.VatCaseInsensitive` | src/main/kotlin/model/ProductDomain.kt:31 | two spellings that differ only in case get the same VAT |
| `ProductDomain.VatTableEntries` | src/main/kotlin/model/ProductDomain.kt:32-35 | "Sweden" and "SWEDEN" give 25, "Germany" 19, "France" 20; the empty string and "Atlantis" give 0 |
| `ProductDomain.SumPercent` | src/main/kotlin/model/ProductDomain.kt:24 | the percent total of non-negative discounts is non-negative |
| `ProductDomain.SumPercentLeftToRight` | src/main/kotlin/model/ProductDomain.kt:24 | the recursive total equals Kotlin's left-to-right `sumOf`: the total of all but the last discount plus the last percent |
| `ProductDomain.SumPercentPermutation` | src/main/kotlin/model/ProductDomain.kt:24 | two discount lists with the same multiset of discounts have the same percent total |
| `ProductDomain.DiscountFactor` | src/main/kotlin/model/ProductDomain.kt:24 | the factor is never negative; it is 0 exactly when the percents total 100 or more; it is at most 1 when the total is non-negative; below 100 it is `1 − total/100` |
| `ProductDomain.DiscountFactorInUnit` | src/main/kotlin/model/ProductDomain.kt:24 | with non-negative percents the factor lies in [0, 1] |
| `ProductDomain.RoundHalfEven` | src/main/kotlin/model/ProductDomain.kt:26 | `round` returns an integer within 1/2 of its argument, and the even one on a tie |
| `ProductDomain.RoundHalfEvenUnique` | src/main/kotlin/model/ProductDomain.kt:26 | any integer within 1/2 of `x` that is even on a tie is `round(x)`, so the contract above determines the rounding |
| `ProductDomain.RoundCents` | src/main/kotlin/model/ProductDomain.kt:26 | `round(x * 100) / 100` is within half a cent of `x`, is a whole number of cents, and is non-negative when `x` is |
| `ProductDomain.RawPrice` | src/main/kotlin/model/ProductDomain.kt:23-25 | the unrounded price is non-negative for a non-negative base price, and 0 when the percents total 100 or more |
| `ProductDomain.FinalPrice` | src/main/kotlin/model/ProductDomain.kt:21-27 | the final price is a whole number of cents within half a cent of base × discount factor × (1 + VAT/100) |
| `ProductDomain.RawPriceNonNegative` | src/main/kotlin/model/ProductDomain.kt:24-26 | a non-negative base price gives a non-negative unrounded and final price |
| `ProductDomain.PriceIgnoresDiscountOrder` | src/main/kotlin/model/ProductDomain.kt:24 | reordering a product's discounts changes neither the unrounded nor the final price |
| `ProductDomain.PlainPriceWithoutVat` | src/main/kotlin/model/ProductDomain.kt:23-26 | with no discounts and a country outside the table the unrounded price is the base price |
| `ProductDomain.AddingDiscountNeverRaisesPrice` | src/main/kotlin/model/ProductDomain.kt:24-26 | appending a discount with a positive percent never raises the unrounded price of a product with a non-negative base price |
| `ProductDomain.SwedenTenPercent` | src/test/kotlin/ProductApiTest.kt:70-76 | for Sweden, in any case, with a single 10% discount the unrounded price is base × 0.9 × 1.25 |
| `ProductDomain.VacuumCleanerExample` | src/main/kotlin/model/ProductDomain.kt:21-27 | 199.99 in Sweden with one 10% discount is 224.98875 unrounded and 224.99 final |
| `CatalogReader.ProductIds` | src/main/kotlin/service/ProductService.kt:25-28 | the reference list of distinct ids: it holds every id of the rows and only those, and none twice |
| `CatalogReader.FirstRow` | src/main/kotlin/service/ProductService.kt:28-36 | the row a product's name, price and country come from is the first row of that id: a row with that id and no row of that id before it |
| `CatalogReader.GroupRows` | src/main/kotlin/service/ProductService.kt:25-43 | the fold returns one product per distinct id in first-occurrence order; each product has the columns of its first row and the discounts of its rows; no rows give no products |
| `CatalogReader.ProductIdsInFirstOccurrenceOrder` | src/main/kotlin/service/ProductService.kt:25-43 | a product listed before another already has a row before any row of the later one |
| `CatalogReader.SortedRowsGiveSortedProducts` | src/main/kotlin/service/ProductService.kt:18-43 | rows ordered by id give products in strictly ascending id order |
| `CatalogReader.RowDiscountsExactlyRecorded` | src/main/kotlin/service/ProductService.kt:37-41 | a discount is in a product's list exactly when some row of that product carries its id and percent |
| `CatalogReader.NullDiscountRowsGiveNoDiscounts` | src/main/kotlin/service/ProductService.kt:37-41 | a product whose rows all have a null discount id gets an empty discount list |
| `CatalogReader.TwoDiscountsAndNoneExample` | src/main/kotlin/service/ProductService.kt:25-43 | a product with two discount rows and one with a single null row appear once each, with 2 and 0 discounts |
| `CatalogReader.RowsForCountry` | src/main/kotlin/service/ProductService.kt:17 | the filter keeps exactly the rows whose lower-cased country equals the lower-cased argument, and keeps an id order |
| `CatalogReader.ListByCountry` | src/main/kotlin/service/ProductService.kt:11-47 | every listed product is in the country ignoring case; an id is listed iff some row offers it there; products come out in ascending id order for ordered rows; no rows give an empty list |
| `DiscountLedger.IsDuplicate` | src/main/kotlin/service/ProductService.kt:78-80 | an error classed as a duplicate has a message: a null message never is |
| `DiscountLedger.IsDuplicateIffMentions` | src/main/kotlin/service/ProductService.kt:78-80 | an error is classed as a duplicate iff it has a message whose lower-cased form contains "unique", "duplicate" or "primary key"; a null message never is |
| `DiscountLedger.IsDuplicateIgnoresCase` | src/main/kotlin/service/ProductService.kt:78 | two messages that differ only in case are classed alike |
| `DiscountLedger.DuplicateKeyMessagesRecognised` | src/main/kotlin/service/ProductService.kt:65-81 | the duplicate-key message of H2 and of Postgres is classed as a duplicate, and a null message is not |
| `DiscountLedger.Insert` | src/main/kotlin/service/ProductService.kt:66-75 | the INSERT commits exactly when no fault strikes and the key is new, adding just that key with its percent; a clean INSERT of a known key fails with a duplicate-class error |
| `DiscountLedger.ApplyDiscount` | src/main/kotlin/service/ProductService.kt:51-85 | a bad percent is rejected before anything else; a failed existence check escapes; an absent product is NotFound; a fault-free call returns Applied iff the key is new and AlreadyApplied iff it is known; a failed INSERT writes nothing and is AlreadyApplied when its error is duplicate-class and escapes otherwise; only Applied changes the store, and only by adding its key |
| `DiscountLedger.RejectionIgnoresStore` | src/main/kotlin/service/ProductService.kt:52 | a percent outside (0, 100) fails the same way whatever the store and the insert would do, and leaves the store alone |
| `DiscountLedger.MissingProductAttemptsNoInsert` | src/main/kotlin/service/ProductService.kt:55-61 | when the existence check runs and finds no product, the answer is NotFound whatever the ledger and the INSERT's fault, and nothing is written |
| `DiscountLedger.LookupFailureEscapes` | src/main/kotlin/service/ProductService.kt:55-66 | a failure of the connection or the existence SELECT, which lies outside the `try`, escapes unchanged even when its message reads like a duplicate key, and nothing is written |
| `DiscountLedger.RepeatKeepsFirstPercent` | src/main/kotlin/service/ProductService.kt:76-81 | repeating a call with any other valid percent observes AlreadyApplied and keeps the first percent |
| `DiscountLedger.FaultMentioningUniqueReadsAsAlreadyApplied` | src/main/kotlin/service/ProductService.kt:78-81 | on a valid call for an existing product, any INSERT failure whose message contains "unique" in any case is answered AlreadyApplied with nothing written (a lookup failure with such a message still escapes) |
| `DiscountLedger.Run` | src/main/kotlin/service/ProductService.kt:51-85 | running calls in sequence keeps the products, and keeps every ledger key with the percent first stored for it |
| `DiscountLedger.AppliedOncePerNewKey` | src/main/kotlin/service/ProductService.kt:65-81 | under any order of calls and any storage failures that leave no row behind, a key is reported Applied once if the run added it and zero times otherwise |
| `DiscountLedger.CleanCallsSucceed` | src/main/kotlin/service/ProductService.kt:65-81 | for an existing product, every valid fault-free call on a key observes Applied or AlreadyApplied, and the key ends up in the ledger |
| `DiscountLedger.ContendedKeyAppliedOnce` | src/main/kotlin/service/ProductService.kt:65-81 | for a key of an existing product that is not yet stored, and at least one call on it: however the valid fault-free calls on that key interleave with other calls, exactly one observes Applied, every one observes Applied or AlreadyApplied, and the key is stored |
| `DiscountLedger.IdenticalCallsApplyOnce` | src/test/kotlin/ProductApiTest.kt:49-67 | N ≥ 1 identical valid fault-free calls on an existing product whose key is not yet stored give one Applied, N − 1 AlreadyApplied and exactly one new ledger row, with the requested percent |
| `DiscountLedger.RepeatsAreNoOps` | src/main/kotlin/service/ProductService.kt:76-81 | once a key is stored, any number of repeats observe AlreadyApplied and leave the store unchanged |

## Left out

- JDBC connections, `use` blocks, prepared statements and SQL execution are not modelled. The catalog query's answer is a parameter (a sequence of join rows). The products table is a set of ids and the discount table is a map keyed by its primary key.
- The outer join itself is not modelled. `ListByCountry` receives the joined rows; its sortedness result is conditional on the rows being in `ORDER BY p.id` order.
- `Text.StrLe` is a code-point lexicographic order. The database's collation for `ORDER BY p.id` may differ. Only the fact that the rows are sorted by the order is used.
- Case folding is ASCII. Kotlin's `lowercase()` and SQL `LOWER` use full Unicode case mapping. The VAT table and the three duplicate words are ASCII, so the difference only affects exotic non-ASCII letters.
- IEEE-754 `Double` arithmetic is not modelled: prices and percents are exact reals. The rounding step is exact half-to-even rounding of the real value, and NaN and infinities do not arise.
- The wording of each driver's duplicate-key error is given by `DuplicateKeyMessage`: the opening words of the H2 and Postgres messages. This wording is not part of the service's code.
- Storage failures other than the duplicate key (lost connection, an id longer than its `VARCHAR` column, a foreign-key violation) are modelled as arbitrary faults: `faults.lookup` for `getConnection()` and the existence SELECT, which always escapes, and `faults.insert` for the INSERT, which is classified. Failures while closing a statement or the connection are not modelled. The deletion race between the existence check and the INSERT is not modelled: nothing in this code deletes products, so products never change during a run.
- Insert: a failed INSERT is assumed to have written nothing. A failure reported after the server has committed the row (a connection lost before the acknowledgement reaches `executeUpdate`) is not modelled; in that case the program re-throws, the row exists with no call having observed Applied, and a retry observes AlreadyApplied, so `AppliedOncePerNewKey` and the run lemmas built on it do not cover it.
- HTTP routing and its parameter checks (blank country, blank id), JSON serialisation, schema creation and seeding, and the build script are not modelled.
- Real concurrency is not modelled. Each call is one atomic step of `Run`, and the storage engine's serialisation order is the order of the sequence.
