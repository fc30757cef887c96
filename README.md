# Product service model

A Dafny model of the product service of a small Go web API
(`api/v1/services/products.go`). The service has five operations on a products
table: list all products, get one by id, create, update and delete. It validates
the request payload (the price must not be negative). It stores an empty
description as NULL. It turns every failure into one service error with a fixed
message and a 400, 404 or 500 status code.

The model has three modules:

- `Types` (types.dfy): the service error (message, underlying cause, status code),
  the three status codes, and the tagged results `Result<T>` (an entity or one
  error) and `Outcome` (nil or one error).
- `Models` (models.dfy): the product row, the nullable string, and the products
  table. `ProductTable` is a class whose `rows: map<int, Product>` field maps each
  primary key to its row. It stands in for the generated data-access layer and the
  database. Lookup by id (`FindProduct`) and listing (`All`) are functions of the
  rows. `Insert`, `Update` and `Delete` are methods that change the map.
- `Services` (products.dfy): the request body and the five operations.
  `GetProducts` and `GetProduct` only read, so they are functions of the rows.
  `CreateProduct`, `UpdateProduct` and `DeleteProduct` change the table step by
  step, as the Go code does. Each is a method proved equal to a function
  (`CreateOutcome`, `UpdateOutcome`, `DeleteOutcome`) that gives the reply and the
  rows afterwards. The lemmas link those functions to each other.

Calls outside the service are an oracle parameter, `Faults(query, parse, scan, write)`:

- `query`: the SELECT of a lookup or listing fails for a reason other than "no rows".
- `parse`: the decimal parse of the price text fails.
- `scan`: the decimal scan of the parsed value fails.
- `write`: the INSERT, UPDATE or DELETE fails.

A cancelled context shows up as a `query` or `write` fault. On insert, the storage
may pick any id that no row uses. The price is an integer, carried unchanged into
the stored row.

Two details of the code that the model keeps:

- Update and delete return the lookup's own 404/500 errors before they do
  anything else. Update checks the price only after the lookup succeeds.
- Listing never reports "not found". An empty table lists as the empty sequence.

## Model

| member | source | states |
|---|---|---|
| `Services.GetProducts` | api/v1/services/products.go:24-34 | succeeds exactly when the listing query does not fail; on success the result lists the table (one entry per row, every entry a stored row, every row present); otherwise the one error is 500 "Unable to get products" |
| `Models.All` | api/v1/services/products.go:25 | a listing never answers "no rows"; it succeeds exactly when the query does not fail; the result lists the table, and when rows are keyed by id no row appears twice |
| `Services.GetProduct` | api/v1/services/products.go:36-53 | succeeds exactly when the query does not fail and the id is stored, and then returns the stored row; a missing id gives 404 "Product not found"; any other query failure gives 500 "Unable to get product"; being a function of the rows, it changes nothing |
| `Services.CreateOutcome` | api/v1/services/products.go:55-98 | a negative price gives 400 "Price cannot be negative"; then parse failure gives 400 "Invalid price format", scan failure 500 "Failed to convert price to decimal", and insert failure 500 "Unable to create product"; every failure leaves the rows unchanged and is classified; it succeeds exactly when none of these happen, and then it adds exactly one row under the new id carrying the body's name, description and price; the store invariant is preserved |
| `Services.CreateProduct` | api/v1/services/products.go:55-98 | the table afterwards and the reply are those of `CreateOutcome` for some id the table did not use; the table stays keyed by id |
| `Models.ProductTable.Insert` | api/v1/services/products.go:89 | on success, stores the row under an id no row used, fills that id in and changes nothing else; on failure, changes nothing |
| `Models.UnusedId` | api/v1/services/products.go:89 | the id given to a new row is used by no row (it exceeds every stored id) |
| `Services.UpdateOutcome` | api/v1/services/products.go:100-157 | the lookup comes first: a query failure gives 500 "Unable to get product" and a missing id gives 404 "Product not found" whatever the price; only for a stored id do a negative price (400), parse failure (400), scan failure (500) and update failure (500 "Unable to update product") follow; every failure leaves the rows unchanged; on success, exactly name, description and price of the found row are replaced, its id is kept, no other row changes, and the updated row is returned; the store invariant is preserved |
| `Services.UpdateProduct` | api/v1/services/products.go:100-157 | the reply and the table afterwards are those of `UpdateOutcome`; the table stays keyed by id |
| `Models.ProductTable.Update` | api/v1/services/products.go:148 | on success writes the row under its own id if that id is stored, and otherwise changes nothing |
| `Services.DeleteOutcome` | api/v1/services/products.go:159-185 | a query failure gives 500 "Unable to get product", a missing id 404 "Product not found", and a delete failure 500 "Unable to delete product", each with the rows unchanged; it succeeds (no error) exactly when the id is stored and nothing fails, and then removes exactly that row; the store invariant is preserved |
| `Services.DeleteProduct` | api/v1/services/products.go:159-185 | the reply and the table afterwards are those of `DeleteOutcome`; the table stays keyed by id |
| `Models.ProductTable.Delete` | api/v1/services/products.go:176 | on success removes the row with the product's id and nothing else; on failure changes nothing |
| `Models.FindProduct` | api/v1/services/products.go:37 | a lookup yields a driver failure exactly on a query fault, the stored row exactly when there is no fault and the id is stored (a row whose id is the one asked for, in a keyed table), and "no rows" exactly when there is no fault and the id is missing; the same lookup runs at lines 101 and 160 |
| `Services.LookupError` | api/v1/services/products.go:38-50 | a failed lookup becomes one classified error: "no rows" is 404 "Product not found" and any other failure 500 "Unable to get product", and the code is 404 exactly for "no rows"; the same split is written out again at lines 102-115 and 161-173 |
| `Services.NullableDescription` | api/v1/services/products.go:85 | the stored description is present exactly when the request text is not empty, is never a present empty text, and reads back as the request text; the same mapping is applied at line 145 |
| `Services.DescriptionRoundTrip` | api/v1/services/products.go:85 | a well-formed stored description (NULL, or present non-empty text) is exactly what its own text maps to, so the mapping and its read-back are inverse |
| `Services.GetAfterCreate` | api/v1/services/products.go:83-97 | a lookup right after a successful create returns exactly the created product |
| `Services.GetAfterUpdate` | api/v1/services/products.go:144-156 | a lookup right after a successful update returns exactly the updated product, never a mix of old and new fields |
| `Services.GetAfterDelete` | api/v1/services/products.go:160-184 | after a successful delete, a lookup of the id is 404 and deleting it again is 404 |
| `Services.ExampleSession` | api/v1/services/products.go:55-185 | on an empty table: create "Widget" with an empty description and price 10 gives id 1 with a NULL description; get 1 returns it; update 1 to "Widget2", "d", 20 returns the new row; delete 1 succeeds; get 1 is then 404 |
| `Models.SortedIds` | api/v1/services/products.go:25 | an enumeration of the stored ids, each exactly once; ascending order is this model's choice, not something the database promises |

## Left out

- The generated data-access code (query building, column inference, `Insert`, `Update`, `Delete` and `All` internals) is not modelled. It is replaced by map operations on `ProductTable.rows`. The rows-affected counts that `Update` and `Delete` return are dropped, as the service ignores them.
- The database driver, connections and transactions are not modelled, because they are I/O. The model is sequential, so update's lookup-then-write needs no transaction.
- Context cancellation is not modelled, because it is concurrency and I/O. It counts as one more cause of a `query` or `write` fault.
- The decimal library (`decimal.NewFromString`, `types.Decimal.Scan`) is not modelled, because it is foreign code. The price is an integer carried unchanged into the row. The two failure branches of the conversion are the `parse` and `scan` faults.
- The underlying Go error values are not kept; each is reduced to a `Cause` tag.
- The order of listed products is not modelled, because the database picks it. `All` happens to list by ascending id, but no contract about the service says so.
- HTTP routing, the status codes a router sends on success, and the JSON tags on the request body are not modelled, because they belong to the web framework.
- A nil request body is not modelled: the Go functions take a pointer and would panic at the first read of its price, but the model's `ProductBody` is a plain value that cannot be nil.
- Fixed-width Go integers are not modelled; ids and prices are unbounded integers.
