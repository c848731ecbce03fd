# Product catalogue: ingestion and query rules

A Dafny model of the product catalogue service: how a posted product is checked,
normalised and stored, how the read operations turn a repository selection into a
response or a failure, and how the six failure kinds become HTTP error responses.
The relational table is replaced by a sequence of stored rows plus an id counter.

- `Text` (text.dfy): the string operations the service relies on. These are ASCII
  `toLowerCase`, `trim().isEmpty()`, substring containment for a JPQL `like %term%`,
  and `Integer.toString`.
- `Products` (products.dfy): the request body (`Candidate`, every field possibly
  absent) and the stored row (`Product`).
- `Repository` (repository.dfy): the four JPQL queries and `findById` as functions
  over the stored rows, in table order. `ProductStore` is the table itself: its rows
  and the next id, with `Save`.
- `Errors` (errors.dfy): the `Failure` datatype (one variant per exception class,
  carrying its message) and `Handle`, the exception handlers as one total function.
- `Service` (service.dfy): the check order of `addNewProduct`, normalisation, the
  catalogue invariant, the read operations as pure functions of the stored rows,
  and the `ProductService` class with `AddNewProduct` and `TotalInventoryValue`.
- `Properties` (properties.dfy): lemmas that relate several operations.
- `Sequences` (sequences.dfy): generic sequence and multiset facts used for the
  order-by query.

## Model

| member | source | states |
|---|---|---|
| `Service.CheckCandidate` | src/main/java/product_catalogue/service/ProductService.java:29-38 | An absent field gives NullInput even if the part number is taken or a value is negative. Otherwise a part number already stored gives DuplicateData whatever the price and stock. Otherwise a negative price or stock gives NegativeValue. The product is accepted exactly when none of these holds. |
| `Service.Normalize` | src/main/java/product_catalogue/service/ProductService.java:40-41 | The saved part name and category are the posted ones with every upper-case ASCII letter replaced by its lower-case letter, so they have the same lengths, hold no upper-case letter, and are unchanged if they were already lower-case. The posted part number, price and stock are kept. |
| `Service.ProductService.AddNewProduct` | src/main/java/product_catalogue/service/ProductService.java:27-49 | It fails exactly when `CheckCandidate` finds a failure, and then it raises that failure and leaves the rows and the counter unchanged. Otherwise it appends exactly one product, the normalised one under the next id, and returns it with status 200 and "Product data successfully saved". The id counter advances by one. It keeps the store's id invariant and the catalogue invariant. |
| `Service.AddPreservesWellFormed` | src/main/java/product_catalogue/service/ProductService.java:29-46 | An accepted add keeps the catalogue invariant: unique part numbers, lower-case names and categories, no negative price or stock. |
| `Service.GetAllProducts` | src/main/java/product_catalogue/service/ProductService.java:51-63 | NoRecord "No Data exist in the Database" exactly when the store is empty, otherwise every stored product. |
| `Service.SearchByPartName` | src/main/java/product_catalogue/service/ProductService.java:65-81 | InvalidInput is raised exactly when the name is absent or blank, before any query. A non-blank name gives NoRecord exactly when no stored part name contains its lower-cased form. It succeeds exactly when the name is non-blank and some stored part name contains that form. The result is then non-empty and holds exactly the stored products whose part name contains it. |
| `Service.FilterByCategory` | src/main/java/product_catalogue/service/ProductService.java:83-94 | NoRecord exactly when no stored category equals the lower-cased argument, otherwise exactly the stored products with that category. |
| `Service.SortProductByPrice` | src/main/java/product_catalogue/service/ProductService.java:96-107 | NoRecord exactly when the store is empty, otherwise a permutation of all stored products in non-decreasing price order. |
| `Service.ProductService.TotalInventoryValue` | src/main/java/product_catalogue/service/ProductService.java:109-125 | The loop's total is the sum of price times stock over every stored product. An empty store is NoRecord, not zero. |
| `Service.GetById` | src/main/java/product_catalogue/service/ProductService.java:127-138 | IdNotFound (not NoRecord) exactly when no stored product has the id, otherwise a stored product with that id. |
| `Properties.AddThenSamePartNumberIsDuplicate` | src/main/java/product_catalogue/service/ProductService.java:29-46 | After an accepted add, any complete product with the same part number is refused with DuplicateData. |
| `Properties.AddTwice` | src/main/java/product_catalogue/service/ProductService.java:27-49 | On the service object: if the first of two adds with one part number succeeds, the second fails with DuplicateData and the store holds only the first. |
| `Properties.InventoryValueAppend` | src/main/java/product_catalogue/service/ProductService.java:114-116 | The inventory value of a concatenation is the sum of the two parts' values. |
| `Properties.AddRaisesInventoryValue` | src/main/java/product_catalogue/service/ProductService.java:114-116 | An accepted add raises the inventory value by exactly the new product's price times stock. |
| `Properties.InventoryValueNonNegative` | src/main/java/product_catalogue/service/ProductService.java:112-116 | With no negative price or stock, which the add checks guarantee, the inventory value is never negative. |
| `Properties.InventoryValueExample` | src/main/java/product_catalogue/service/ProductService.java:112-116 | Products (price 10, stock 2) and (price 5, stock 3) are worth 35. |
| `Properties.GetByIdAfterSave` | src/main/java/product_catalogue/service/ProductService.java:127-134 | The id the store gives a saved product looks up exactly that product. |
| `Properties.UnusedIdIsIdNotFound` | src/main/java/product_catalogue/service/ProductService.java:135-137 | An id at or above the id counter, which no save has handed out yet, gives IdNotFound, which the handler answers with 404. |
| `Properties.SearchIgnoresCase` | src/main/java/product_catalogue/service/ProductService.java:66-70 | Two names that differ only in letter case give the same search outcome and the same products. |
| `Properties.AddedProductIsFound` | src/main/java/product_catalogue/service/ProductService.java:40-41 | An accepted product is found by the category it was posted with, in any letter case. It is also found by its part name when that name is not blank. |
| `Properties.SortAnswerDeterminedUpToTies` | src/main/java/product_catalogue/service/ProductService.java:96-103 | Any other order the database may choose among equal prices lists the same prices as the sorted answer. |
| `Repository.CountOfPartNumber` | src/main/java/product_catalogue/repository/ProductRepository.java:15-16 | The count is the number of stored rows that have the part number. So it is positive exactly when some row has it, it equals the number of rows exactly when all rows have it, and it never exceeds the number of rows. |
| `Repository.SearchByPartName` | src/main/java/product_catalogue/repository/ProductRepository.java:18-19 | The result holds exactly the stored products whose part name contains the term, with no row more often than it is stored. |
| `Repository.FilterByCategory` | src/main/java/product_catalogue/repository/ProductRepository.java:21-22 | The result holds exactly the stored products whose category equals the argument, with no row more often than it is stored. |
| `Repository.SortProductByPrice` | src/main/java/product_catalogue/repository/ProductRepository.java:24-25 | The result is a permutation of the stored rows in non-decreasing price order. |
| `Repository.SortedPermutationsAgreeOnPrices` | src/main/java/product_catalogue/repository/ProductRepository.java:24-25 | Two price-sorted permutations of the same rows have the same sequence of prices, so only the order of ties is open. |
| `Repository.FindById` | src/main/java/product_catalogue/repository/ProductRepository.java:13 | It returns a stored product with the id if one exists, and nothing exactly when none does. |
| `Repository.FindByIdUnique` | src/main/java/product_catalogue/repository/ProductRepository.java:13 | With distinct ids, it returns the one stored product that has the id. |
| `Repository.ProductStore.Save` | src/main/java/product_catalogue/repository/ProductRepository.java:13 | It assigns an id that no stored row uses, appends the row with that id and advances the counter. The new id then looks up the saved row. |
| `Errors.Handle` | src/main/java/product_catalogue/exception/GlobalExceptionHandler.java:13-65 | Every failure gets a 4xx status, the body repeats that status and the message passes through unchanged. DuplicateData gives 409 "Duplicate Data". NegativeValue, NullInput and InvalidInput give 400 with "Negative Value", "Null Values" and "Invalid input". NoRecord gives 404 "Data not found" and IdNotFound gives 404 "Invalid ID". |
| `Errors.LabelIdentifiesKind` | src/main/java/product_catalogue/exception/GlobalExceptionHandler.java:13-65 | Two failures get the same `error` label exactly when they are of the same kind. Failures of one kind get one status, and the same response when their messages match. |
| `Text.Lower` | src/main/java/product_catalogue/service/ProductService.java:40-41 | Each character is lower-cased in place: an upper-case ASCII letter becomes the letter 32 code points above it, and every other character is kept. So the length is kept, no upper-case letter is left, and an already lower-case string is unchanged. |
| `Text.NatToString` | src/main/java/product_catalogue/service/ProductService.java:132 | The decimal digits, with no leading zero, denote exactly the given number. |
| `Text.IntToString` | src/main/java/product_catalogue/service/ProductService.java:132 | A minus sign appears exactly for a negative id. The digits after it have no leading zero and denote the id's absolute value. |
| `Text.BlankIffAllTrimmable` | src/main/java/product_catalogue/service/ProductService.java:66 | `trim().isEmpty()` holds exactly when every character is at most U+0020. |
| `Text.ContainsIffOccurrence` | src/main/java/product_catalogue/repository/ProductRepository.java:18 | The recursive substring test holds exactly when the term occurs at some position. |

## Left out

- HTTP routing (`ProductController`), dependency injection and the `ResponseEntity`/`HttpStatus` objects are left out. A success response keeps only status 200, the message and the data.
- The source files of the `Product` entity, `ResponseStructure`, `ErrorStructure`, `IdNotFoundException` and `NegativeValueException` are not available. The model defines them (`Product`, `Response`, `ErrorStructure`, the `IdNotFound` and `NegativeValue` failures) from how the service and the handler use them.
- A client-supplied `id` in the request body is ignored: `Save` always inserts under the next id. JPA would merge such an entity instead, and that is not modelled.
- JPA id generation is modelled as a counter that starts at 1 and grows by one per save.
- The service updates the posted product object in place with `setCategory`/`setPartName` and saves that same object. The model builds a normalised value instead, so the aliasing between the request object and the stored row is not captured.
- Prices and the inventory total are `Double` in the service. Here they are exact reals, with no rounding.
- The inventory result is the string "Total Inventory value : " followed by the formatted double. Here it is the number itself.
- `stock` is an `Integer`, but the model uses an unbounded integer, so 32-bit overflow in the request body is not modelled.
- `toLowerCase` covers ASCII letters only, without locale rules.
- The `like` query is plain substring containment. `%` and `_` inside the search term are not modelled.
- Database collation and case rules are not modelled for any query. The `like` query and the equality comparisons on `partNumber` and `category` (ProductRepository.java lines 15 and 21) compare strings exactly, character by character.
- Rows are in insertion order. Among equal prices the model picks one order; `SortedPermutationsAgreeOnPrices` shows that only the order of ties can differ from another database order.
- The race between the duplicate count and the save under concurrent requests is not modelled; every operation runs alone.
- `filterByCategory` with a null category (a `NullPointerException`) and `getByID` with a null id are excluded: both arguments are non-null by type here.
- Search case-insensitivity: the service lower-cases only the search term, so matching ignores case only for rows whose part name was lower-cased on insert. This holds for every row the service wrote (`WellFormed`); the model follows the code rather than a promise of case-insensitive matching in general.
- Blank names: `trim` removes every character up to U+0020, control characters included, not only spaces. The model follows that.
