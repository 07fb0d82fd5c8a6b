# Brazilian e-commerce service: a Dafny model of its core

The service is a CRUD API over the Olist e-commerce data set: customers,
sellers, orders (with their items, payments and reviews) and products, kept in
PostgreSQL and served as JSON over HTTP. This project models its core as pure
functions over immutable values and proves what that core promises:

- **Errors** (`errors.dfy`): the application error kinds, the plain `?`
  conversions, the classifier that turns PostgreSQL's `unique_violation`
  (SQLSTATE `23505`) into a conflict, and the table from error kind to HTTP
  status and `{"error": ...}` body (400, 404, 409 and 500 as in RFC 9110,
  sections 15.5.1, 15.5.5, 15.5.10 and 15.6.1).
- **Tables** (`tables.dfy`, `text_order.dfy`): the semantics of the SQL the
  repositories run. A table is a sequence of rows, and the module defines
  WHERE, `COUNT(*)`, `ORDER BY ... DESC` on a text column, `LIMIT`/`OFFSET`,
  INSERT under a primary key, and DELETE with its affected-row count.
- **Repositories** (`repositories.dfy`): the database as a `Store` value with one
  table per resource and an optional storage failure that every statement then
  reports. Each `Pg*Repository` method is a function over it, built on the
  table semantics: optional-equality filters, count and page, `COALESCE`
  partial update, delete, and the products-of-an-order join.
- **Services** (`services.dfy`): the decision layer. Validation comes first,
  then the empty-update check, then storage. An absent row or zero deleted
  rows is `NotFound`. Create errors go through the classifier. The list
  envelope carries the normalised page and page size, and an order's total is
  the exact sum of price plus freight. A state-changing call returns a `Reply`
  that says whether storage was reached at all.
- **Handlers** (`handlers.dfy`): the success statuses of the create (201),
  update (200) and delete (204, no body) handlers. Also the bulk CSV load,
  which tallies per-record outcomes into success and error counts over the
  customers, sellers and orders files in that order.

Two collaborators are not part of this model and enter as function-typed
parameters, so every property holds for any of them. They are the paging
normaliser (`Normalizer`, yielding limit, offset, page and page size) and the
payload validators (`Validator<D>`). Opening a CSV file likewise enters as a
parameter `open: string -> CsvSource`. The outcome of each record (decode
failure, HTTP status, or send failure) is part of the `CsvSource` value.

Where the SQL leaves the row order open (sellers have no `ORDER BY`, and
rows with equal keys tie under `ORDER BY`), the page contracts leave it open
too. The ghost predicate `Tables.IsOrderedPage` says an ordered page is a
window of *some* arrangement of the matching rows sorted by the key, highest
first, and `Tables.IsUnorderedPage` says an unordered page is a window of some
arrangement at all. A client's walk through the pages (`Tables.IsOrderedWalk`,
`Tables.IsUnorderedWalk`) lets every page query choose its own arrangement.
Two kinds of contract do fix one order. The concrete list functions pick one
arrangement, a stable insertion sort that keeps ties in table order, but their
contracts promise only the ghost predicates. The products-of-an-order join
(`OrderRepository.JoinOrderProducts`) and the contracts of
`OrderRepository.FindProductsByOrderId` and
`OrderService.GetProductsByOrderId` fix item-by-item table order, although the
SQL has no `ORDER BY` there either. Its row count does not depend on the
order, and neither does the total.

## Model

| member | source | states |
|---|---|---|
| Errors.MapDbError | src/error.rs:78-85 | the result is `AlreadyExists(resource + " already exists")` exactly when the error is a database error with code `23505`; every other error becomes `DatabaseError` carrying it unchanged |
| Errors.IntoResponse | src/error.rs:39-76 | `NotFound` is 404, `ValidationError` and `NoChangesToUpdate` are 400, `AlreadyExists` is 409, and the database, migration and configuration errors are 500, each as an if-and-only-if; client rejections are exactly the 4xx class and collaborator failures exactly the 5xx class; the conflict body is the message verbatim; the configuration body ends with its detail |
| Errors.StorageFailuresLookAlike | src/error.rs:51-64 | any two database errors give the same response, as do any two migration errors, so neither body reveals its cause; the two fixed bodies differ |
| Errors.CreateFailureStatus | src/error.rs:78-85 | a create's storage error, classified and then rendered, is 409 exactly for a unique violation and 500 otherwise |
| Errors.PlainConversionNeverConflicts | src/error.rs:21-25 | the `From` conversion of a storage error is never `AlreadyExists` and always renders as 500, even for a duplicate key |
| Tables.Select | src/repositories.rs:91-96 | the rows a WHERE keeps are exactly the table's rows that satisfy it, no more rows than the table, and a sub-multiset of it |
| Tables.CountIsSelectLength | src/repositories.rs:70-103 | the `COUNT(*)` query and the row query under the same WHERE agree on how many rows match |
| Tables.CountComplement | src/repositories.rs:165-174 | the rows matching a predicate and those not matching it add up to the whole table |
| Tables.FindFirst | src/repositories.rs:113-128 | a `fetch_optional` lookup answers `None` exactly when no row matches, and otherwise a matching row of the table |
| Tables.FindFirstByKey | src/repositories.rs:113-128 | under a primary key, looking a key up finds exactly the row that carries it |
| Tables.SortDesc | src/repositories.rs:95 | the sorted rows are a permutation of the input (same length, same multiset) |
| Tables.SortDescSorted | src/repositories.rs:95 | the sorted rows are in descending order of the key under code-point text order |
| Tables.Window | src/repositories.rs:96 | `LIMIT l OFFSET o` keeps at most `l` rows, exactly `min(l, n - o)` of them when `o < n` and none otherwise, and row `i` of the page is row `o + i` of the input |
| Tables.PagingFailure | src/repositories.rs:96 | a page query fails exactly when storage fails or the limit or offset is negative; a storage failure is reported as is; otherwise a negative offset is SQLSTATE 2201X even when the limit is negative too, because PostgreSQL evaluates OFFSET before LIMIT, and a negative limit alone is 2201W |
| Tables.ListOrdered | src/repositories.rs:63-111 | a count-and-page listing succeeds exactly when storage works and the paging is non-negative; the total is the number of matching rows whatever the paging; the page holds at most `limit` rows and no more than the total; every row on it is a stored matching row; and it is a window of the matching rows sorted by the key, highest first |
| Tables.ListUnordered | src/repositories.rs:236-285 | as for ordered listings, except that the page is a window of the matching rows in an order left unspecified |
| Tables.OrderedWalkLength | src/repositories.rs:63-111 | however each page query breaks ties, the pages of a walk from offset `o` hold together exactly as many rows as match after position `o`; from the first page, as many as the count reports |
| Tables.UnorderedWalkLength | src/repositories.rs:236-285 | without ORDER BY too, whatever order each page query picks, the page sizes of a walk add up to the number of matching rows |
| Tables.SortedPermutationUnique | src/repositories.rs:95 | when no two different rows share a sort key, two descending arrangements of the same rows are equal |
| Tables.OrderedPageIsWindow | src/repositories.rs:95-96 | under a sort key unique among the matching rows, every page the ORDER BY allows is the window of the one sorted arrangement |
| Tables.OrderedWalkIsSuffix | src/repositories.rs:95-96 | under a sort key unique among the matching rows, the pages from offset `o` are the sorted matching rows from position `o` on, whatever the database does |
| Tables.OrderedWalkCoversMatches | src/repositories.rs:95-96 | under a sort key unique among the matching rows, paging from the first page returns every matching row exactly once |
| Tables.TiedPairWalk | src/repositories.rs:95-96 | two rows with equal sort keys, one row per page: both pages may hold the same row, a walk the ORDER BY permits |
| Tables.UnorderedPairWalk | src/repositories.rs:269-270 | without ORDER BY, any two rows, one per page: both pages may hold the same row |
| Tables.ThenByKeepsKeysUnique | src/repositories.rs:95 | a key made of a NUL-free column followed by a primary key is unique among rows whose primary key is |
| Tables.InsertUnique | src/repositories.rs:37-61 | an insert succeeds exactly when storage works and the key is free, appending the row and returning it; a taken key is a unique violation; a failed insert leaves the table unchanged; the primary key is preserved |
| Tables.DeleteWhere | src/repositories.rs:165-184 | a delete reports the number of matching rows, keeps exactly the non-matching rows, and removed plus kept is the table size |
| Tables.DeleteByKey | src/repositories.rs:165-184 | deleting by primary key reports 0 exactly when no row carries the key, never more than 1, and keeps the key unique |
| Tables.DeleteWhereTwice | src/repositories.rs:165-174 | a second identical delete removes nothing and reports 0 |
| TextOrder.LeTotal | src/repositories.rs:95 | any two texts are comparable under the order `ORDER BY` sorts by |
| TextOrder.LeTransitive | src/repositories.rs:95 | that order is transitive |
| TextOrder.LeAntisymmetric | src/repositories.rs:95 | texts that sort no later than each other are equal |
| TextOrder.ThenByOrder | src/repositories.rs:95 | the combined text `major NUL minor` sorts like the pair: by the major columns when they differ, and by the minor columns when they are equal |
| TextOrder.ThenByInjective | src/repositories.rs:95 | two combined keys are equal only when both columns are |
| CustomerRepository.Create | src/repositories.rs:37-61 | the insert returns the row with the payload's field values and appends it, exactly when storage works and the id is free; storage errors come back unchanged and leave the table as it was; table keys stay unique |
| CustomerRepository.FindAll | src/repositories.rs:63-111 | total = number of customers whose city and state match the filter (an absent filter field places no constraint), independent of paging; page length is at most the limit and the total; the page is a window of the matches sorted by zip code prefix, highest first |
| CustomerRepository.WalkAddsUpToTotal | src/repositories.rs:70-103 | a client paging through the listing with one filter and page size gets as many rows over all pages as the count reports, however ties on the zip prefix are broken on each page |
| CustomerRepository.TiedZipWalkRepeats | src/repositories.rs:87-103 | two customers with zip prefix "01000" and page size 1: both pages the listing may serve hold customer `a`, and `b` is never served |
| CustomerRepository.FindAllStable | src/repositories.rs:87-103 | the listing with `customer_id` breaking zip ties: same success, error and count rules as the listing, with the page ordered by zip prefix and then id |
| CustomerRepository.StableWalkCoversMatches | src/repositories.rs:87-103 | with the id breaking ties, paging from the first page returns every matching customer exactly once, and the page sizes add up to the count |
| CustomerRepository.FindById | src/repositories.rs:113-128 | an unknown id is `Ok(None)`, not an error; a found row is a stored customer with that id |
| CustomerRepository.Coalesce | src/repositories.rs:136-140 | each present field overwrites the stored value, each absent field keeps it, and the id never changes |
| CustomerRepository.UpdateRows | src/repositories.rs:133-141 | the table keeps its length and ids; rows with another id are unchanged; rows with the id are coalesced |
| CustomerRepository.Update | src/repositories.rs:131-162 | an unknown id answers `None` and leaves the store unchanged; otherwise the answer is the coalesced stored row; no other row and no other table changes; ids and the primary key are preserved |
| CustomerRepository.Delete | src/repositories.rs:164-184 | the answer is the number of rows with that id (0 exactly when none, at most 1 under the primary key); exactly those rows are removed and every other row and table is untouched |
| CustomerRepository.DeleteTwiceRemovesNothing | src/repositories.rs:165-174 | a second delete of the same id answers 0 and changes nothing |
| SellerRepository.Create | src/repositories.rs:211-234 | as for customers: the inserted seller is returned exactly when storage works and the id is free; errors are passed back unchanged |
| SellerRepository.FindAll | src/repositories.rs:236-285 | total = number of sellers matching city and state, independent of paging; page bounded by limit and total; the page is a window of the matches in an unspecified order |
| SellerRepository.WalkAddsUpToTotal | src/repositories.rs:243-270 | a client paging through the listing gets as many rows over all pages as the count reports, whatever order each page query picks |
| SellerRepository.UnorderedWalkRepeats | src/repositories.rs:259-270 | two sellers and page size 1: with no ORDER BY, both pages may hold seller `a`, and `b` is never served |
| SellerRepository.FindAllOrdered | src/repositories.rs:259-270 | the listing with `ORDER BY seller_id DESC`: same success, error and count rules, with the page ordered by id |
| SellerRepository.IdOrderWalkCoversMatches | src/repositories.rs:259-270 | ordered by id, paging from the first page returns every matching seller exactly once, and the page sizes add up to the count |
| SellerRepository.FindById | src/repositories.rs:287-303 | an unknown id is `Ok(None)`; a found row is a stored seller with that id |
| OrderRepository.Create | src/repositories.rs:339-370 | the inserted order is returned exactly when storage works and the id is free; errors are passed back unchanged |
| OrderRepository.AddItem | src/repositories.rs:372-398 | the item is stored under the order id from the path and returned, exactly when storage works and (order id, item number) is free; a duplicate is a unique violation |
| OrderRepository.FindAll | src/repositories.rs:400-446 | total = number of orders with the filtered status, independent of paging; the page is a window of the matches sorted by purchase timestamp, newest first |
| OrderRepository.FindById | src/repositories.rs:448-466 | an unknown id is `Ok(None)`; a found row is a stored order with that id |
| OrderRepository.FindByCustomerId | src/repositories.rs:468-514 | total = number of the customer's orders, independent of paging; the page holds only that customer's orders, newest purchase first |
| OrderRepository.WalkAddsUpToTotal | src/repositories.rs:400-514 | a client paging through either order listing gets as many rows over all pages as the count reports, however ties on the purchase timestamp are broken on each page |
| OrderRepository.TiedPurchaseWalkRepeats | src/repositories.rs:490-501 | two orders of customer "c" placed in the same second and page size 1: both pages may hold order `a`, and `b` is never served |
| OrderRepository.FindAllStable | src/repositories.rs:420-433 | the status listing with `order_id` breaking timestamp ties: same success, error and count rules, with the page ordered by timestamp and then id |
| OrderRepository.FindByCustomerIdStable | src/repositories.rs:490-501 | the per-customer listing with `order_id` breaking timestamp ties: same rules, ordered by timestamp and then id |
| OrderRepository.StableWalkCoversMatches | src/repositories.rs:420-501 | with the id breaking ties, paging either listing from the first page returns every matching order exactly once, and the page sizes add up to the count |
| OrderRepository.JoinItem | src/repositories.rs:532-534 | an item joins to one row per product with its product id, each carrying the item's shipping date, price and freight and a stored product's columns |
| OrderRepository.JoinOrderProducts | src/repositories.rs:516-535 | the join's length is the number of (item, product) pairs the join condition accepts: the sum, over the order's items, of the number of stored products with the item's product id |
| OrderRepository.JoinSound | src/repositories.rs:516-544 | every joined row pairs an item of the requested order with a stored product of the same id |
| OrderRepository.JoinComplete | src/repositories.rs:516-544 | every item of the order whose product exists appears in the join with its price and freight |
| OrderRepository.JoinWithoutItems | src/repositories.rs:516-544 | an order with no items, known or not, joins to no rows |
| OrderRepository.FindProductsByOrderId | src/repositories.rs:516-544 | succeeds exactly when storage works; its rows are exactly the join's, sound and complete as above, as many as the (item, product) pairs the join condition accepts, and empty for an order without items |
| OrderRepository.FindPaymentsByOrderId | src/repositories.rs:546-566 | succeeds exactly when storage works; the answer is the stored payments of that order with their multiplicity: each is a stored payment of the order, every one of them appears, the length is the count of the order's payments, and no payment is repeated more often than it is stored |
| OrderRepository.FindReviewsByOrderId | src/repositories.rs:568-590 | succeeds exactly when storage works; the answer is the stored reviews of that order with their multiplicity: membership both ways, the length is the count of the order's reviews, and no review is repeated more often than it is stored |
| ProductRepository.Create | src/repositories.rs:617-644 | the inserted product is returned exactly when storage works and the id is free; errors are passed back unchanged |
| ProductRepository.FindAll | src/repositories.rs:646-691 | total = number of products in the filtered category, independent of paging; a product whose category is NULL matches no category filter; the page is a window of the matches sorted by product id, highest first |
| ProductRepository.WalkCoversMatches | src/repositories.rs:646-691 | the listing is ordered by the primary key, so paging from the first page returns every matching product exactly once, and the page sizes add up to the count |
| ProductRepository.FindById | src/repositories.rs:693-703 | an unknown id is `Ok(None)`; a found row is a stored product with that id |
| CustomerService.Create | src/services.rs:28-35 | a failed validation is `ValidationError` and storage is never reached; otherwise the stored customer is returned exactly when the id is free; a taken id is `AlreadyExists("Customer already exists")`; other storage errors go through the classifier |
| CustomerService.Get | src/services.rs:38-43 | `NotFound` exactly when storage works and no customer has the id; a found customer is returned as stored |
| CustomerService.Update | src/services.rs:46-61 | validation first, then the no-fields check (`NoChangesToUpdate`), and neither touches storage, so a validation error wins over an empty update; an unknown id is `NotFound` with nothing changed; success returns the coalesced row and applies the update to the table |
| CustomerService.Delete | src/services.rs:64-71 | `NotFound` exactly when no row was removed; success removes exactly the customer with that id and nothing else |
| CustomerService.List | src/services.rs:74-91 | the envelope holds the repository's page and total as returned, with the page and page size the normaliser gives for the same paging input the repository used; storage errors become `DatabaseError` |
| CustomerService.CreateThenGet | src/services.rs:28-43 | a customer just created is found by its id exactly as stored |
| CustomerService.CreateTwiceConflicts | src/services.rs:28-35 | repeating a successful create gives `AlreadyExists("Customer already exists")` and changes nothing |
| CustomerService.UpdateThenGet | src/services.rs:46-61 | after a successful update, reading the customer back returns the updated row |
| CustomerService.DeleteTwiceNotFound | src/services.rs:64-71 | a second delete of the same id is `NotFound` |
| SellerService.Create | src/services.rs:105-112 | validation first without touching storage; a taken id is `AlreadyExists("Seller already exists")` |
| SellerService.Get | src/services.rs:115-120 | `NotFound` exactly when no seller has the id; a found seller is returned as stored |
| SellerService.List | src/services.rs:123-139 | the repository's page and total, with the normalised page and page size |
| OrderService.Create | src/services.rs:153-160 | validation first without touching storage; a taken id is `AlreadyExists("Order already exists")` |
| OrderService.AddItemToOrder | src/services.rs:163-170 | validation first; a storage error takes the plain conversion, so a duplicate item is `DatabaseError` carrying the unique violation, never `AlreadyExists` |
| OrderService.Get | src/services.rs:173-178 | `NotFound` exactly when no order has the id; a found order is returned as stored |
| OrderService.FoldIsSum | src/services.rs:183-185 | the left fold from any start adds exactly the sum of price plus freight over the rows |
| OrderService.SumLinesPermutation | src/services.rs:183-185 | the total does not depend on the order of the rows |
| OrderService.JoinItemTotal | src/repositories.rs:516-535 | the rows one item joins to are worth its price plus freight once per stored product with its product id |
| OrderService.JoinTotal | src/services.rs:181-191 | the join's line values add up to the order's items' total, computed from the items alone: each item of the order counts its price plus freight once per stored product with its id, so two units of one item and one of another are worth exactly that |
| OrderService.GetProductsByOrderId | src/services.rs:181-191 | the products are the join's rows unchanged, one per pair of an item of the order and a product with its id; the total is the exact sum of price plus freight over them, and equals the order's items' total computed from the items alone; an order without items, known or not, gives an empty list and total 0 rather than `NotFound` |
| OrderService.GetPaymentsByOrderId | src/services.rs:194-197 | the order's payments with their multiplicity (membership both ways, the count of the order's payments, within the stored multiset); storage errors become `DatabaseError` |
| OrderService.GetReviewsByOrderId | src/services.rs:200-203 | the order's reviews with their multiplicity (membership both ways, the count of the order's reviews, within the stored multiset); storage errors become `DatabaseError` |
| OrderService.List | src/services.rs:206-219 | the repository's page and total under the status filter, with the normalised page and page size |
| OrderService.ListByCustomer | src/services.rs:222-234 | the repository's page and count of the customer's orders, with the normalised page and page size |
| ProductService.Create | src/services.rs:248-255 | validation first without touching storage; a taken id is `AlreadyExists("Product already exists")` |
| ProductService.Get | src/services.rs:258-263 | `NotFound` exactly when no product has the id; a found product is returned as stored |
| ProductService.List | src/services.rs:266-282 | the repository's page and total under the category filter, with the normalised page and page size |
| Handlers.CreateCustomerHandler | src/handlers.rs:19-25 | a 2xx answer exactly when the service succeeds, and then it is 201 with the stored customer; 400 for a rejected payload; 409 "Customer already exists" for a taken id; 409 or 500 for a storage error, as classified |
| Handlers.UpdateCustomerHandler | src/handlers.rs:43-50 | 2xx exactly on success, and then 200 whose body is the very row the service's update returns, a customer with that id; 400 "No valid fields provided for update." for an empty update; 404 for an unknown id, with storage unchanged |
| Handlers.DeleteCustomerHandler | src/handlers.rs:52-58 | 204 with no body exactly when a row was removed; 404 for an unknown id; 500 "Database Operation Failed" on a storage failure |
| Handlers.CreateSellerHandler | src/handlers.rs:72-78 | 2xx exactly on success, and then 201 with the stored seller; 409 "Seller already exists" for a taken id |
| Handlers.CreateOrderHandler | src/handlers.rs:96-102 | 2xx exactly on success, and then 201 with the stored order; 409 "Order already exists" for a taken id |
| Handlers.AddItemToOrderHandler | src/handlers.rs:120-131 | 2xx exactly on success, and then 201 with the stored item; never 409; a duplicate item is 500 "Database Operation Failed" |
| Handlers.CreateProductHandler | src/handlers.rs:157-163 | 2xx exactly on success, and then 201 with the stored product; 409 "Product already exists" for a taken id |
| Handlers.RepeatedCreateIsConflict | src/handlers.rs:19-25 | posting the same new customer again after a 201 is answered 409 "Customer already exists" and leaves the store as the first post left it |
| Ingestion.OpenFailure | src/handlers.rs:234-237 | an unopenable file is a `ConfigError`, answered with 500 |
| Ingestion.LoadCsvData | src/handlers.rs:226-277 | an unreadable file is `ConfigError("Failed to open CSV file: ...")` before any record is looked at; otherwise success counts the records answered 2xx, error counts every other record (decode failure, non-2xx, send failure), and the two add up to the number of records |
| Ingestion.CountersOnlyGrow | src/handlers.rs:239-276 | the success and error counts over a prefix of the records never exceed those over a longer prefix |
| Ingestion.LoadDataFromCsvHandler | src/handlers.rs:181-224 | customers, then sellers, then orders; the first file that cannot be opened aborts the load with its own error and the earlier counts are dropped; otherwise the totals are the sums of the three files' counts, and success plus error is the total number of records |

## Left out

- Paging normalisation, the list envelope's page count, the search queries' `pagination()`/`filter()` projections and the payload validation rules live in `src/models.rs`, which is not part of this model. The normaliser and the validators are parameters, so no clamping bound, default or page-count formula is assumed. A search query is modelled by its two projections as fields.
- SQL and driver mechanics (connection pool, binding, row decoding): the model keeps only the table semantics the query text states. A storage failure is one value in the `Store` that every statement then reports. Partial failures are not modelled separately; in the source any failing statement ends the call with that error anyway.
- Concurrency: the count query and the page query are separate statements and may observe different data under concurrent writes. The model treats them as reading one snapshot.
- Foreign keys and the rest of the database schema are not part of this model: an order for an unknown customer, or an item for an unknown order or product, is accepted.
- OrderRepository.AddItem: assumes the order-items primary key is (order id, item number). The schema is not part of this model.
- OrderRepository.JoinOrderProducts: the join has no `ORDER BY`. The model returns rows item by item in table order, which is one of the orders the database may choose. `OrderService.SumLinesPermutation` shows the total does not depend on that choice. The contracts of the repository and service fix this one order.
- JoinOrderProducts: its contract and its partner lemmas fix the number of rows, their soundness and completeness, and (through `OrderService.JoinTotal`) their total value, but not which (item, product) pair each row comes from; only its definition fixes that, and `FindProductsByOrderId` returns the definition's rows unchanged.
- Tables.ListOrdered: the concrete page breaks ties in table order (stable sort). Only `IsOrderedPage`, which allows any tie order, is what the SQL guarantees.
- Text order is code-point lexicographic (the "C" collation). Under another database collation, `ORDER BY` on text can order rows differently.
- Timestamps and zip prefixes are free text: no predicate constrains their format, and orders are sorted by their purchase timestamp as text. That is chronological only for timestamps written in one canonical fixed-width format; if the column is a SQL timestamp, the database orders by time instead.
- The corrected listings (`CustomerRepository.FindAllStable`, `OrderRepository.FindAllStable`, `OrderRepository.FindByCustomerIdStable`, `SellerRepository.FindAllOrdered`) sit beside the listings as written. The services call the listings as written, because that is what the code does. The tie-breaking key relies on PostgreSQL text holding no NUL character, which the lemmas take as a precondition.
- Integer widths: the `i64` counts, the `u64` affected-row count and the `usize` tallies are unbounded naturals. No overflow is reachable at these sizes.
- Money is an exact `real`, standing for the arbitrary-precision decimal type. Its scale and rounding on output are not modelled.
- The read-only handlers (`get_*_handler`, `get_customer_orders_handler`, and the products, payments and reviews of an order) wrap their service call in `Json` with status 200 and propagate errors like the others. They are not modelled separately; their logic is in the service functions.
- HTTP transport: routing (`src/routes.rs`), request extraction, and JSON encoding. For the bulk load, the self-POST to `http://localhost:$PORT/...`, its client, and CSV decoding are left out. Each record is reduced to its outcome.
- Logging and tracing, including the `println!` in the add-item handler.
- Startup and configuration (`src/main.rs`, `src/config.rs`, `src/state.rs`): pool setup, migrations, environment variables, CORS and graceful shutdown. The migration error exists in the model only as an error kind.

## Findings

Paging is meant to be reproducible: sequential page requests should neither repeat nor skip a row. Each `find_all` runs its page query afresh, and the database may order rows with equal sort keys differently each time. So the listings below can serve the same row on two pages and never serve another. `Tables.OrderedWalkLength` shows the page sizes still add up to the count, so nothing in the totals reveals it.

| source | as written | input that shows it | evidently intended | confidence | as-written member | corrected member |
|---|---|---|---|---|---|---|
| src/repositories.rs:87-103 | `ORDER BY customer_zip_code_prefix DESC` alone; many customers share a prefix | customers `a` and `b` with prefix "01000", page size 1: both pages may hold `a` | `ORDER BY customer_zip_code_prefix DESC, customer_id DESC`: every customer exactly once | medium, not executed | CustomerRepository.TiedZipWalkRepeats | CustomerRepository.StableWalkCoversMatches |
| src/repositories.rs:420-501 | `ORDER BY order_purchase_timestamp DESC` alone in both order listings | orders `a` and `b` of customer "c" placed at "2017-10-02 10:56:33", page size 1: both pages may hold `a` | `ORDER BY order_purchase_timestamp DESC, order_id DESC`: every order exactly once | medium, not executed | OrderRepository.TiedPurchaseWalkRepeats | OrderRepository.StableWalkCoversMatches |
| src/repositories.rs:259-270 | no `ORDER BY` at all in the seller page query | sellers `a` and `b`, page size 1: both pages may hold `a` | `ORDER BY seller_id DESC`: every seller exactly once | medium, not executed | SellerRepository.UnorderedWalkRepeats | SellerRepository.IdOrderWalkCoversMatches |

The corrected listings are `CustomerRepository.FindAllStable`, `OrderRepository.FindAllStable`, `OrderRepository.FindByCustomerIdStable` and `SellerRepository.FindAllOrdered`. The products listing already orders by its primary key; `ProductRepository.WalkCoversMatches` proves its walk exact as written.
