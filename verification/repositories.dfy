/**
 The database the repositories talk to, as an in-memory value: one sequence of
 rows per table, and an optional failure that every statement reports (a lost
 connection, a pool timeout, ...). The tables' primary keys are the entities'
 identifiers; an order item is identified by its order and its item number.
 */
module Database {
  import opened Wrappers
  import opened Errors
  import opened Models
  import opened Tables

  datatype Store = Store(
    customers: seq<Customer>,
    sellers: seq<Seller>,
    orders: seq<Order>,
    orderItems: seq<OrderItem>,
    products: seq<Product>,
    payments: seq<Payment>,
    reviews: seq<Review>,
    failure: Option<DbError>)

  /** A statement's answer and the database it leaves behind. */
  datatype Effect<T> = Effect(result: Result<T, DbError>, store: Store)

  function CustomerKey(c: Customer): string { c.customerId }
  function SellerKey(s: Seller): string { s.sellerId }
  function OrderKey(o: Order): string { o.orderId }
  function ProductKey(p: Product): string { p.productId }
  function OrderItemKey(i: OrderItem): (string, int) { (i.orderId, i.orderItemId) }

  /** Every table's primary key holds. */
  predicate Consistent(st: Store) {
    && UniqueKeys(st.customers, CustomerKey)
    && UniqueKeys(st.sellers, SellerKey)
    && UniqueKeys(st.orders, OrderKey)
    && UniqueKeys(st.orderItems, OrderItemKey)
    && UniqueKeys(st.products, ProductKey)
  }

  /** `($1 IS NULL OR column = $1)` on a NOT NULL column. */
  predicate MatchesOptional(filter: Option<string>, column: string) {
    filter.None? || filter.value == column
  }

  /** `($1 IS NULL OR column = $1)` on a nullable column: a NULL never equals the filter value. */
  predicate MatchesNullable(filter: Option<string>, column: Option<string>) {
    filter.None? || column == Some(filter.value)
  }

  /** The limit and offset a repository passes to its page query. */
  function Paging(normalize: Normalizer, pagination: PaginationParams): Normalized {
    normalize(pagination)
  }
}

/** The customers table (`PgCustomerRepository`). */
module CustomerRepository {
  import opened Wrappers
  import opened Errors
  import opened Models
  import opened Tables
  import opened Database
  import TextOrder

  /** The row an insert of `dto` stores and returns. */
  function FromDto(dto: CreateCustomerDto): Customer {
    Customer(dto.customerId, dto.customerUniqueId, dto.customerZipCodePrefix, dto.customerCity, dto.customerState)
  }

  predicate Matches(filter: LocationFilter, c: Customer) {
    MatchesOptional(filter.city, c.customerCity) && MatchesOptional(filter.state, c.customerState)
  }

  /** The WHERE clause of both list queries. */
  function Where(filter: LocationFilter): Customer -> bool {
    c => Matches(filter, c)
  }

  /** The list order: `ORDER BY customer_zip_code_prefix DESC`. */
  function ZipKey(c: Customer): string { c.customerZipCodePrefix }

  /** `INSERT INTO customers ... RETURNING ...`; storage errors come back untouched. */
  function Create(st: Store, dto: CreateCustomerDto): (e: Effect<Customer>)
    ensures e.result.Ok? <==> st.failure.None? && !KeyPresent(st.customers, CustomerKey, dto.customerId)
    ensures e.result.Ok? ==> e.result.value == FromDto(dto)
    ensures e.result.Ok? ==> e.store == st.(customers := st.customers + [FromDto(dto)])
    ensures st.failure.Some? ==> e.result == Err(st.failure.value)
    ensures st.failure.None? && e.result.Err? ==> IsUniqueViolation(e.result.error)
    ensures e.result.Err? ==> e.store == st
    ensures Consistent(st) ==> Consistent(e.store)
  {
    var w := InsertUnique(st.customers, CustomerKey, FromDto(dto), st.failure);
    Effect(w.result, st.(customers := w.rows))
  }

  /**
   The count query and the page query under the same city/state filter; the
   count does not depend on the paging, the page is at most `limit` long and is
   a window of the matching rows sorted by zip code prefix, highest first.
   */
  function FindAll(st: Store, filter: LocationFilter, normalize: Normalizer, pagination: PaginationParams)
    : (r: Result<Listing<Customer>, DbError>)
    ensures r.Ok? <==> st.failure.None? && normalize(pagination).limit >= 0 && normalize(pagination).offset >= 0
    ensures st.failure.Some? ==> r == Err(st.failure.value)
    ensures r.Ok? ==> r.value.totalCount == Count(st.customers, Where(filter))
    ensures r.Ok? ==> |r.value.items| <= normalize(pagination).limit && |r.value.items| <= r.value.totalCount
    ensures r.Ok? ==> forall c :: c in r.value.items ==> c in st.customers && Matches(filter, c)
    ensures r.Ok? ==> IsOrderedPage(r.value.items, Select(st.customers, Where(filter)), ZipKey,
                                    normalize(pagination).offset, normalize(pagination).limit)
  {
    var n := Paging(normalize, pagination);
    ListOrdered(st.customers, Where(filter), ZipKey, n.limit, n.offset, st.failure)
  }

  /**
   A client paging through `find_all` with one filter and page size gets, over
   all pages, as many rows as the count reports, whatever order the ties on the
   zip prefix take in each page query.
   */
  lemma WalkAddsUpToTotal(st: Store, filter: LocationFilter, pages: seq<seq<Customer>>, limit: nat)
    requires limit > 0 && IsOrderedWalk(pages, Select(st.customers, Where(filter)), ZipKey, limit, 0)
    ensures |Flatten(pages)| == Count(st.customers, Where(filter))
  {
    OrderedWalkLength(pages, Select(st.customers, Where(filter)), ZipKey, limit, 0);
    CountIsSelectLength(st.customers, Where(filter));
  }

  /** Two customers sharing a zip code prefix. */
  const TiedA := Customer("a", "ua", "01000", "sao paulo", "SP")
  const TiedB := Customer("b", "ub", "01000", "sao paulo", "SP")

  /**
   Ties on the zip prefix let a walk repeat one customer and skip another: with
   page size 1, the first query may sort `a` before `b` and the second `b`
   before `a`, and both pages then hold `a`.
   */
  lemma TiedZipWalkRepeats()
    ensures UniqueKeys([TiedA, TiedB], CustomerKey)
    ensures Select([TiedA, TiedB], Where(LocationFilter(None, None))) == [TiedA, TiedB]
    ensures IsOrderedWalk([[TiedA], [TiedA]], [TiedA, TiedB], ZipKey, 1, 0)
    ensures TiedB !in Flatten([[TiedA], [TiedA]])
  {
    BothCustomersUnfiltered();
    TiedPairWalk(TiedA, TiedB, ZipKey);
  }

  lemma BothCustomersUnfiltered()
    ensures UniqueKeys([TiedA, TiedB], CustomerKey)
    ensures Select([TiedA, TiedB], Where(LocationFilter(None, None))) == [TiedA, TiedB]
    ensures TiedA != TiedB
  {
    var keep := Where(LocationFilter(None, None));
    assert keep(TiedA) && keep(TiedB);
    SelectKeepsAll([TiedA, TiedB], keep);
  }

  /** The list order the paging needs: `ORDER BY customer_zip_code_prefix DESC, customer_id DESC`. */
  function StableZipKey(c: Customer): string {
    TextOrder.ThenBy(c.customerZipCodePrefix, c.customerId)
  }

  /** `find_all` with the customer id breaking ties on the zip prefix. */
  function FindAllStable(st: Store, filter: LocationFilter, normalize: Normalizer, pagination: PaginationParams)
    : (r: Result<Listing<Customer>, DbError>)
    ensures r.Ok? <==> st.failure.None? && normalize(pagination).limit >= 0 && normalize(pagination).offset >= 0
    ensures st.failure.Some? ==> r == Err(st.failure.value)
    ensures r.Ok? ==> r.value.totalCount == Count(st.customers, Where(filter))
    ensures r.Ok? ==> |r.value.items| <= normalize(pagination).limit && |r.value.items| <= r.value.totalCount
    ensures r.Ok? ==> IsOrderedPage(r.value.items, Select(st.customers, Where(filter)), StableZipKey,
                                    normalize(pagination).offset, normalize(pagination).limit)
  {
    var n := Paging(normalize, pagination);
    ListOrdered(st.customers, Where(filter), StableZipKey, n.limit, n.offset, st.failure)
  }

  /**
   With the id breaking ties, paging from the first page returns every matching
   customer exactly once, for every way the pages may be served.
   */
  lemma StableWalkCoversMatches(st: Store, filter: LocationFilter, pages: seq<seq<Customer>>, limit: nat)
    requires Consistent(st) && forall c :: c in st.customers ==> TextOrder.NoNul(c.customerZipCodePrefix)
    requires limit > 0 && IsOrderedWalk(pages, Select(st.customers, Where(filter)), StableZipKey, limit, 0)
    ensures multiset(Flatten(pages)) == multiset(Select(st.customers, Where(filter)))
    ensures |Flatten(pages)| == Count(st.customers, Where(filter))
  {
    var matching := Select(st.customers, Where(filter));
    SelectKeepsKeysUnique(st.customers, Where(filter), CustomerKey);
    ThenByKeepsKeysUnique(matching, StableZipKey, ZipKey, CustomerKey);
    OrderedWalkCoversMatches(pages, matching, StableZipKey, limit);
    OrderedWalkLength(pages, matching, StableZipKey, limit, 0);
    CountIsSelectLength(st.customers, Where(filter));
  }

  /** `SELECT ... WHERE customer_id = $1` with `fetch_optional`: absence is not an error. */
  function FindById(st: Store, id: string): (r: Result<Option<Customer>, DbError>)
    ensures r.Ok? <==> st.failure.None?
    ensures st.failure.Some? ==> r == Err(st.failure.value)
    ensures r.Ok? ==> (r.value.None? <==> !KeyPresent(st.customers, CustomerKey, id))
    ensures r.Ok? && r.value.Some? ==> r.value.value in st.customers && r.value.value.customerId == id
  {
    if st.failure.Some? then Err(st.failure.value)
    else Ok(FindFirst(st.customers, KeyIs(CustomerKey, id)))
  }

  /** `SET column = COALESCE($n, column)` for each of the four updatable columns. */
  function Coalesce(c: Customer, dto: UpdateCustomerDto): (r: Customer)
    ensures r.customerId == c.customerId
    ensures dto.customerUniqueId.Some? ==> r.customerUniqueId == dto.customerUniqueId.value
    ensures dto.customerUniqueId.None? ==> r.customerUniqueId == c.customerUniqueId
    ensures dto.customerZipCodePrefix.Some? ==> r.customerZipCodePrefix == dto.customerZipCodePrefix.value
    ensures dto.customerZipCodePrefix.None? ==> r.customerZipCodePrefix == c.customerZipCodePrefix
    ensures dto.customerCity.Some? ==> r.customerCity == dto.customerCity.value
    ensures dto.customerCity.None? ==> r.customerCity == c.customerCity
    ensures dto.customerState.Some? ==> r.customerState == dto.customerState.value
    ensures dto.customerState.None? ==> r.customerState == c.customerState
  {
    c.(customerUniqueId := dto.customerUniqueId.GetOr(c.customerUniqueId),
       customerZipCodePrefix := dto.customerZipCodePrefix.GetOr(c.customerZipCodePrefix),
       customerCity := dto.customerCity.GetOr(c.customerCity),
       customerState := dto.customerState.GetOr(c.customerState))
  }

  /** The table after `UPDATE customers SET ... WHERE customer_id = $1`. */
  function UpdateRows(rows: seq<Customer>, id: string, dto: UpdateCustomerDto): (r: seq<Customer>)
    ensures |r| == |rows|
    ensures forall i :: 0 <= i < |rows| ==> r[i].customerId == rows[i].customerId
    ensures forall i :: 0 <= i < |rows| && rows[i].customerId != id ==> r[i] == rows[i]
    ensures forall i :: 0 <= i < |rows| && rows[i].customerId == id ==> r[i] == Coalesce(rows[i], dto)
  {
    seq(|rows|, i requires 0 <= i < |rows| => if rows[i].customerId == id then Coalesce(rows[i], dto) else rows[i])
  }

  /**
   `UPDATE ... RETURNING ...` with `fetch_optional`: the matching row has every
   present field overwritten and every absent one kept; its id and every other
   row are untouched; with no matching row the answer is `None` and nothing changes.
   */
  function Update(st: Store, id: string, dto: UpdateCustomerDto): (e: Effect<Option<Customer>>)
    ensures st.failure.Some? ==> e == Effect(Err(st.failure.value), st)
    ensures st.failure.None? ==> e.result.Ok?
    ensures e.result.Ok? ==> (e.result.value.None? <==> !KeyPresent(st.customers, CustomerKey, id))
    ensures e.result.Ok? && e.result.value.None? ==> e.store == st
    ensures e.result.Ok? && e.result.value.Some? ==>
              exists i :: 0 <= i < |st.customers| && st.customers[i].customerId == id
                          && e.result.value.value == Coalesce(st.customers[i], dto)
    ensures e.store == st.(customers := e.store.customers)
    ensures |e.store.customers| == |st.customers|
    ensures forall i :: 0 <= i < |st.customers| ==> e.store.customers[i].customerId == st.customers[i].customerId
    ensures forall i :: 0 <= i < |st.customers| && st.customers[i].customerId != id ==>
              e.store.customers[i] == st.customers[i]
    ensures e.result.Ok? ==> forall i :: 0 <= i < |st.customers| && st.customers[i].customerId == id ==>
              e.store.customers[i] == Coalesce(st.customers[i], dto)
    ensures Consistent(st) ==> Consistent(e.store)
  {
    if st.failure.Some? then Effect(Err(st.failure.value), st)
    else
      var rows := UpdateRows(st.customers, id, dto);
      var found := FindFirst(rows, KeyIs(CustomerKey, id));
      assert !KeyPresent(st.customers, CustomerKey, id) ==> rows == st.customers;
      assert found.Some? ==> exists i :: 0 <= i < |rows| && rows[i] == found.value;
      assert UniqueKeys(st.customers, CustomerKey) ==> UniqueKeys(rows, CustomerKey);
      Effect(Ok(found), st.(customers := rows))
  }

  /** `DELETE FROM customers WHERE customer_id = $1`, answering the number of rows removed. */
  function Delete(st: Store, id: string): (e: Effect<nat>)
    ensures st.failure.Some? ==> e == Effect(Err(st.failure.value), st)
    ensures st.failure.None? ==> e.result.Ok?
    ensures e.result.Ok? ==> e.result.value == Count(st.customers, KeyIs(CustomerKey, id))
    ensures e.result.Ok? ==> (e.result.value == 0 <==> !KeyPresent(st.customers, CustomerKey, id))
    ensures e.result.Ok? ==> e.store == st.(customers := Select(st.customers, Not(KeyIs(CustomerKey, id))))
    ensures e.result.Ok? ==> forall c :: c in e.store.customers <==> c in st.customers && c.customerId != id
    ensures Consistent(st) ==> Consistent(e.store)
    ensures Consistent(st) && e.result.Ok? ==> e.result.value <= 1
  {
    var w := DeleteByKey(st.customers, CustomerKey, id, st.failure);
    Effect(w.result, st.(customers := w.rows))
  }

  /** Deleting the same id twice: the second delete removes nothing and answers 0. */
  lemma DeleteTwiceRemovesNothing(st: Store, id: string)
    requires st.failure.None?
    ensures var once := Delete(st, id).store;
            Delete(once, id) == Effect(Ok(0), once)
  {
    DeleteWhereTwice(st.customers, KeyIs(CustomerKey, id));
  }
}

/** The sellers table (`PgSellerRepository`). */
module SellerRepository {
  import opened Wrappers
  import opened Errors
  import opened Models
  import opened Tables
  import opened Database

  /** The row an insert of `dto` stores and returns. */
  function FromDto(dto: CreateSellerDto): Seller {
    Seller(dto.sellerId, dto.sellerZipCodePrefix, dto.sellerCity, dto.sellerState)
  }

  predicate Matches(filter: LocationFilter, s: Seller) {
    MatchesOptional(filter.city, s.sellerCity) && MatchesOptional(filter.state, s.sellerState)
  }

  /** The WHERE clause of both list queries. */
  function Where(filter: LocationFilter): Seller -> bool {
    s => Matches(filter, s)
  }

  /** `INSERT INTO sellers ... RETURNING ...`; storage errors come back untouched. */
  function Create(st: Store, dto: CreateSellerDto): (e: Effect<Seller>)
    ensures e.result.Ok? <==> st.failure.None? && !KeyPresent(st.sellers, SellerKey, dto.sellerId)
    ensures e.result.Ok? ==> e.result.value == FromDto(dto)
    ensures e.result.Ok? ==> e.store == st.(sellers := st.sellers + [FromDto(dto)])
    ensures st.failure.Some? ==> e.result == Err(st.failure.value)
    ensures st.failure.None? && e.result.Err? ==> IsUniqueViolation(e.result.error)
    ensures e.result.Err? ==> e.store == st
    ensures Consistent(st) ==> Consistent(e.store)
  {
    var w := InsertUnique(st.sellers, SellerKey, FromDto(dto), st.failure);
    Effect(w.result, st.(sellers := w.rows))
  }

  /**
   The count query and the page query under the same city/state filter. The
   page query has no ORDER BY, so the page is a window of the matching rows in
   an order the database chooses.
   */
  function FindAll(st: Store, filter: LocationFilter, normalize: Normalizer, pagination: PaginationParams)
    : (r: Result<Listing<Seller>, DbError>)
    ensures r.Ok? <==> st.failure.None? && normalize(pagination).limit >= 0 && normalize(pagination).offset >= 0
    ensures st.failure.Some? ==> r == Err(st.failure.value)
    ensures r.Ok? ==> r.value.totalCount == Count(st.sellers, Where(filter))
    ensures r.Ok? ==> |r.value.items| <= normalize(pagination).limit && |r.value.items| <= r.value.totalCount
    ensures r.Ok? ==> forall s :: s in r.value.items ==> s in st.sellers && Matches(filter, s)
    ensures r.Ok? ==> IsUnorderedPage(r.value.items, Select(st.sellers, Where(filter)),
                                      normalize(pagination).offset, normalize(pagination).limit)
  {
    var n := Paging(normalize, pagination);
    ListUnordered(st.sellers, Where(filter), n.limit, n.offset, st.failure)
  }

  /**
   A client paging through `find_all` gets, over all pages, as many rows as the
   count reports, whatever order each page query returns the rows in.
   */
  lemma WalkAddsUpToTotal(st: Store, filter: LocationFilter, pages: seq<seq<Seller>>, limit: nat)
    requires limit > 0 && IsUnorderedWalk(pages, Select(st.sellers, Where(filter)), limit, 0)
    ensures |Flatten(pages)| == Count(st.sellers, Where(filter))
  {
    UnorderedWalkLength(pages, Select(st.sellers, Where(filter)), limit, 0);
    CountIsSelectLength(st.sellers, Where(filter));
  }

  const SellerA := Seller("a", "01000", "sao paulo", "SP")
  const SellerB := Seller("b", "13000", "campinas", "SP")

  /**
   With no ORDER BY, a walk can repeat one seller and skip another: with page
   size 1, both pages may hold `a`.
   */
  lemma UnorderedWalkRepeats()
    ensures UniqueKeys([SellerA, SellerB], SellerKey)
    ensures Select([SellerA, SellerB], Where(LocationFilter(None, None))) == [SellerA, SellerB]
    ensures IsUnorderedWalk([[SellerA], [SellerA]], [SellerA, SellerB], 1, 0)
    ensures SellerB !in Flatten([[SellerA], [SellerA]])
  {
    var keep := Where(LocationFilter(None, None));
    assert keep(SellerA) && keep(SellerB);
    SelectKeepsAll([SellerA, SellerB], keep);
    UnorderedPairWalk(SellerA, SellerB);
    assert SellerA.sellerId != SellerB.sellerId;
  }

  /** `find_all` with an explicit `ORDER BY seller_id DESC`. */
  function FindAllOrdered(st: Store, filter: LocationFilter, normalize: Normalizer, pagination: PaginationParams)
    : (r: Result<Listing<Seller>, DbError>)
    ensures r.Ok? <==> st.failure.None? && normalize(pagination).limit >= 0 && normalize(pagination).offset >= 0
    ensures st.failure.Some? ==> r == Err(st.failure.value)
    ensures r.Ok? ==> r.value.totalCount == Count(st.sellers, Where(filter))
    ensures r.Ok? ==> |r.value.items| <= normalize(pagination).limit && |r.value.items| <= r.value.totalCount
    ensures r.Ok? ==> IsOrderedPage(r.value.items, Select(st.sellers, Where(filter)), SellerKey,
                                    normalize(pagination).offset, normalize(pagination).limit)
  {
    var n := Paging(normalize, pagination);
    ListOrdered(st.sellers, Where(filter), SellerKey, n.limit, n.offset, st.failure)
  }

  /** Ordered by the primary key, paging from the first page returns every matching seller exactly once. */
  lemma IdOrderWalkCoversMatches(st: Store, filter: LocationFilter, pages: seq<seq<Seller>>, limit: nat)
    requires Consistent(st)
    requires limit > 0 && IsOrderedWalk(pages, Select(st.sellers, Where(filter)), SellerKey, limit, 0)
    ensures multiset(Flatten(pages)) == multiset(Select(st.sellers, Where(filter)))
    ensures |Flatten(pages)| == Count(st.sellers, Where(filter))
  {
    var matching := Select(st.sellers, Where(filter));
    SelectKeepsKeysUnique(st.sellers, Where(filter), SellerKey);
    OrderedWalkCoversMatches(pages, matching, SellerKey, limit);
    OrderedWalkLength(pages, matching, SellerKey, limit, 0);
    CountIsSelectLength(st.sellers, Where(filter));
  }

  /** `SELECT ... WHERE seller_id = $1` with `fetch_optional`: absence is not an error. */
  function FindById(st: Store, id: string): (r: Result<Option<Seller>, DbError>)
    ensures r.Ok? <==> st.failure.None?
    ensures st.failure.Some? ==> r == Err(st.failure.value)
    ensures r.Ok? ==> (r.value.None? <==> !KeyPresent(st.sellers, SellerKey, id))
    ensures r.Ok? && r.value.Some? ==> r.value.value in st.sellers && r.value.value.sellerId == id
  {
    if st.failure.Some? then Err(st.failure.value)
    else Ok(FindFirst(st.sellers, KeyIs(SellerKey, id)))
  }
}

/** The orders table and the order-owned tables (`PgOrderRepository`). */
module OrderRepository {
  import opened Wrappers
  import opened Errors
  import opened Models
  import opened Tables
  import opened Database
  import TextOrder

  /** The row an insert of `dto` stores and returns. */
  function FromDto(dto: CreateOrderDto): Order {
    Order(dto.orderId, dto.customerId, dto.orderStatus, dto.orderPurchaseTimestamp, dto.orderApprovedAt,
          dto.orderDeliveredCarrierDate, dto.orderDeliveredCustomerDate, dto.orderEstimatedDeliveryDate)
  }

  /** The item row an insert of `dto` under order `orderId` stores and returns. */
  function ItemFromDto(orderId: string, dto: AddItemToOrderDto): OrderItem {
    OrderItem(dto.orderItemId, orderId, dto.productId, dto.sellerId, dto.shippingLimitDate, dto.price, dto.freightValue)
  }

  predicate Matches(filter: OrderFilter, o: Order) {
    MatchesOptional(filter.status, o.orderStatus)
  }

  /** The WHERE clause of both list queries. */
  function Where(filter: OrderFilter): Order -> bool {
    o => Matches(filter, o)
  }

  function OrderCustomer(o: Order): string { o.customerId }

  /** Both order listings: `ORDER BY order_purchase_timestamp DESC`. */
  function PurchaseKey(o: Order): string { o.orderPurchaseTimestamp }

  /** `INSERT INTO orders ... RETURNING ...`; storage errors come back untouched. */
  function Create(st: Store, dto: CreateOrderDto): (e: Effect<Order>)
    ensures e.result.Ok? <==> st.failure.None? && !KeyPresent(st.orders, OrderKey, dto.orderId)
    ensures e.result.Ok? ==> e.result.value == FromDto(dto)
    ensures e.result.Ok? ==> e.store == st.(orders := st.orders + [FromDto(dto)])
    ensures st.failure.Some? ==> e.result == Err(st.failure.value)
    ensures st.failure.None? && e.result.Err? ==> IsUniqueViolation(e.result.error)
    ensures e.result.Err? ==> e.store == st
    ensures Consistent(st) ==> Consistent(e.store)
  {
    var w := InsertUnique(st.orders, OrderKey, FromDto(dto), st.failure);
    Effect(w.result, st.(orders := w.rows))
  }

  /** `INSERT INTO order_items ... RETURNING ...` with the order id taken from the path. */
  function AddItem(st: Store, orderId: string, dto: AddItemToOrderDto): (e: Effect<OrderItem>)
    ensures e.result.Ok? <==>
              st.failure.None? && !KeyPresent(st.orderItems, OrderItemKey, (orderId, dto.orderItemId))
    ensures e.result.Ok? ==> e.result.value == ItemFromDto(orderId, dto)
    ensures e.result.Ok? ==> e.store == st.(orderItems := st.orderItems + [ItemFromDto(orderId, dto)])
    ensures st.failure.Some? ==> e.result == Err(st.failure.value)
    ensures st.failure.None? && e.result.Err? ==> IsUniqueViolation(e.result.error)
    ensures e.result.Err? ==> e.store == st
    ensures Consistent(st) ==> Consistent(e.store)
  {
    var w := InsertUnique(st.orderItems, OrderItemKey, ItemFromDto(orderId, dto), st.failure);
    Effect(w.result, st.(orderItems := w.rows))
  }

  /** The count query and the page query under the same status filter, newest purchase first. */
  function FindAll(st: Store, filter: OrderFilter, normalize: Normalizer, pagination: PaginationParams)
    : (r: Result<Listing<Order>, DbError>)
    ensures r.Ok? <==> st.failure.None? && normalize(pagination).limit >= 0 && normalize(pagination).offset >= 0
    ensures st.failure.Some? ==> r == Err(st.failure.value)
    ensures r.Ok? ==> r.value.totalCount == Count(st.orders, Where(filter))
    ensures r.Ok? ==> |r.value.items| <= normalize(pagination).limit && |r.value.items| <= r.value.totalCount
    ensures r.Ok? ==> forall o :: o in r.value.items ==> o in st.orders && Matches(filter, o)
    ensures r.Ok? ==> IsOrderedPage(r.value.items, Select(st.orders, Where(filter)), PurchaseKey,
                                    normalize(pagination).offset, normalize(pagination).limit)
  {
    var n := Paging(normalize, pagination);
    ListOrdered(st.orders, Where(filter), PurchaseKey, n.limit, n.offset, st.failure)
  }

  /** The count query and the page query for one customer's orders, newest purchase first. */
  function FindByCustomerId(st: Store, customerId: string, normalize: Normalizer, pagination: PaginationParams)
    : (r: Result<Listing<Order>, DbError>)
    ensures r.Ok? <==> st.failure.None? && normalize(pagination).limit >= 0 && normalize(pagination).offset >= 0
    ensures st.failure.Some? ==> r == Err(st.failure.value)
    ensures r.Ok? ==> r.value.totalCount == Count(st.orders, KeyIs(OrderCustomer, customerId))
    ensures r.Ok? ==> |r.value.items| <= normalize(pagination).limit && |r.value.items| <= r.value.totalCount
    ensures r.Ok? ==> forall o :: o in r.value.items ==> o in st.orders && o.customerId == customerId
    ensures r.Ok? ==> IsOrderedPage(r.value.items, Select(st.orders, KeyIs(OrderCustomer, customerId)), PurchaseKey,
                                    normalize(pagination).offset, normalize(pagination).limit)
  {
    var n := Paging(normalize, pagination);
    ListOrdered(st.orders, KeyIs(OrderCustomer, customerId), PurchaseKey, n.limit, n.offset, st.failure)
  }

  /**
   A client paging through either order listing (`keep` is its WHERE) gets,
   over all pages, as many rows as the count reports, whatever order the ties
   on the purchase timestamp take in each page query.
   */
  lemma WalkAddsUpToTotal(st: Store, keep: Order -> bool, pages: seq<seq<Order>>, limit: nat)
    requires limit > 0 && IsOrderedWalk(pages, Select(st.orders, keep), PurchaseKey, limit, 0)
    ensures |Flatten(pages)| == Count(st.orders, keep)
  {
    OrderedWalkLength(pages, Select(st.orders, keep), PurchaseKey, limit, 0);
    CountIsSelectLength(st.orders, keep);
  }

  /** Two orders of one customer placed in the same second. */
  const TiedA := Order("a", "c", "delivered", "2017-10-02 10:56:33", None, None, None, None)
  const TiedB := Order("b", "c", "delivered", "2017-10-02 10:56:33", None, None, None, None)

  /**
   Ties on the purchase timestamp let a walk repeat one order and skip another:
   with page size 1, both pages of the customer's orders may hold `a`.
   */
  lemma TiedPurchaseWalkRepeats()
    ensures UniqueKeys([TiedA, TiedB], OrderKey)
    ensures Select([TiedA, TiedB], KeyIs(OrderCustomer, "c")) == [TiedA, TiedB]
    ensures IsOrderedWalk([[TiedA], [TiedA]], [TiedA, TiedB], PurchaseKey, 1, 0)
    ensures TiedB !in Flatten([[TiedA], [TiedA]])
  {
    BothOrdersOfC();
    TiedOrdersDistinct();
    TiedPairWalk(TiedA, TiedB, PurchaseKey);
  }

  lemma BothOrdersOfC()
    ensures Select([TiedA, TiedB], KeyIs(OrderCustomer, "c")) == [TiedA, TiedB]
  {
    SelectKeepsAll([TiedA, TiedB], KeyIs(OrderCustomer, "c"));
  }

  lemma TiedOrdersDistinct()
    ensures UniqueKeys([TiedA, TiedB], OrderKey) && TiedA != TiedB
  {
    assert OrderKey(TiedA) != OrderKey(TiedB);
  }

  /** The list order the paging needs: `ORDER BY order_purchase_timestamp DESC, order_id DESC`. */
  function StablePurchaseKey(o: Order): string {
    TextOrder.ThenBy(o.orderPurchaseTimestamp, o.orderId)
  }

  /** `find_all` with the order id breaking ties on the purchase timestamp. */
  function FindAllStable(st: Store, filter: OrderFilter, normalize: Normalizer, pagination: PaginationParams)
    : (r: Result<Listing<Order>, DbError>)
    ensures r.Ok? <==> st.failure.None? && normalize(pagination).limit >= 0 && normalize(pagination).offset >= 0
    ensures st.failure.Some? ==> r == Err(st.failure.value)
    ensures r.Ok? ==> r.value.totalCount == Count(st.orders, Where(filter))
    ensures r.Ok? ==> |r.value.items| <= normalize(pagination).limit && |r.value.items| <= r.value.totalCount
    ensures r.Ok? ==> IsOrderedPage(r.value.items, Select(st.orders, Where(filter)), StablePurchaseKey,
                                    normalize(pagination).offset, normalize(pagination).limit)
  {
    var n := Paging(normalize, pagination);
    ListOrdered(st.orders, Where(filter), StablePurchaseKey, n.limit, n.offset, st.failure)
  }

  /** `find_by_customer_id` with the order id breaking ties on the purchase timestamp. */
  function FindByCustomerIdStable(st: Store, customerId: string, normalize: Normalizer, pagination: PaginationParams)
    : (r: Result<Listing<Order>, DbError>)
    ensures r.Ok? <==> st.failure.None? && normalize(pagination).limit >= 0 && normalize(pagination).offset >= 0
    ensures st.failure.Some? ==> r == Err(st.failure.value)
    ensures r.Ok? ==> r.value.totalCount == Count(st.orders, KeyIs(OrderCustomer, customerId))
    ensures r.Ok? ==> |r.value.items| <= normalize(pagination).limit && |r.value.items| <= r.value.totalCount
    ensures r.Ok? ==> IsOrderedPage(r.value.items, Select(st.orders, KeyIs(OrderCustomer, customerId)), StablePurchaseKey,
                                    normalize(pagination).offset, normalize(pagination).limit)
  {
    var n := Paging(normalize, pagination);
    ListOrdered(st.orders, KeyIs(OrderCustomer, customerId), StablePurchaseKey, n.limit, n.offset, st.failure)
  }

  /**
   With the id breaking ties, paging either listing from the first page returns
   every matching order exactly once, for every way the pages may be served.
   */
  lemma StableWalkCoversMatches(st: Store, keep: Order -> bool, pages: seq<seq<Order>>, limit: nat)
    requires Consistent(st) && forall o :: o in st.orders ==> TextOrder.NoNul(o.orderPurchaseTimestamp)
    requires limit > 0 && IsOrderedWalk(pages, Select(st.orders, keep), StablePurchaseKey, limit, 0)
    ensures multiset(Flatten(pages)) == multiset(Select(st.orders, keep))
    ensures |Flatten(pages)| == Count(st.orders, keep)
  {
    var matching := Select(st.orders, keep);
    SelectKeepsKeysUnique(st.orders, keep, OrderKey);
    ThenByKeepsKeysUnique(matching, StablePurchaseKey, PurchaseKey, OrderKey);
    OrderedWalkCoversMatches(pages, matching, StablePurchaseKey, limit);
    OrderedWalkLength(pages, matching, StablePurchaseKey, limit, 0);
    CountIsSelectLength(st.orders, keep);
  }

  /** `SELECT ... WHERE order_id = $1` with `fetch_optional`: absence is not an error. */
  function FindById(st: Store, id: string): (r: Result<Option<Order>, DbError>)
    ensures r.Ok? <==> st.failure.None?
    ensures st.failure.Some? ==> r == Err(st.failure.value)
    ensures r.Ok? ==> (r.value.None? <==> !KeyPresent(st.orders, OrderKey, id))
    ensures r.Ok? && r.value.Some? ==> r.value.value in st.orders && r.value.value.orderId == id
  {
    if st.failure.Some? then Err(st.failure.value)
    else Ok(FindFirst(st.orders, KeyIs(OrderKey, id)))
  }

  /** One joined row: the product's columns with the item's shipping date, price and freight. */
  function Joined(p: Product, item: OrderItem): OrderProduct {
    OrderProduct(p.productId, p.productCategoryName, p.dimensions, item.shippingLimitDate, item.price, item.freightValue)
  }

  /** A joined row carries the item's product id, shipping date, price and freight. */
  predicate Carries(x: OrderProduct, item: OrderItem) {
    x.productId == item.productId && x.shippingLimitDate == item.shippingLimitDate
    && x.price == item.price && x.freightValue == item.freightValue
  }

  /** A joined row carries the columns of a stored product with its product id. */
  predicate DescribesProduct(x: OrderProduct, products: seq<Product>) {
    exists p :: p in products && p.productId == x.productId
                && p.productCategoryName == x.productCategoryName && p.dimensions == x.dimensions
  }

  /** The join rows one order item contributes: one per product with its product id. */
  function JoinItem(item: OrderItem, products: seq<Product>): (r: seq<OrderProduct>)
    ensures |r| == Count(products, KeyIs(ProductKey, item.productId))
    ensures forall x :: x in r ==> Carries(x, item) && DescribesProduct(x, products)
    decreases |products|
  {
    if |products| == 0 then []
    else
      assert KeyIs(ProductKey, item.productId)(products[0]) <==> products[0].productId == item.productId;
      assert forall p :: p in products[1..] ==> p in products;
      (if products[0].productId == item.productId then [Joined(products[0], item)] else [])
      + JoinItem(item, products[1..])
  }

  /** An item whose product exists contributes at least one row. */
  lemma JoinItemNonEmpty(item: OrderItem, products: seq<Product>)
    requires KeyPresent(products, ProductKey, item.productId)
    ensures |JoinItem(item, products)| > 0
  {
    var i :| 0 <= i < |products| && ProductKey(products[i]) == item.productId;
    assert KeyIs(ProductKey, item.productId)(products[i]);
    CountZeroIffNone(products, KeyIs(ProductKey, item.productId));
  }

  /**
   The number of (item, product) pairs the join condition accepts: for each
   item of order `orderId`, the number of stored products with its product id.
   */
  function PairCount(items: seq<OrderItem>, products: seq<Product>, orderId: string): nat
    decreases |items|
  {
    if |items| == 0 then 0
    else
      (if items[0].orderId == orderId then Count(products, KeyIs(ProductKey, items[0].productId)) else 0)
      + PairCount(items[1..], products, orderId)
  }

  /**
   `products p INNER JOIN order_items oi ON p.product_id = oi.product_id
   WHERE oi.order_id = $1`, item by item in table order: one row for every
   pair of an item of the order and a stored product with its product id.
   */
  function JoinOrderProducts(items: seq<OrderItem>, products: seq<Product>, orderId: string): (r: seq<OrderProduct>)
    ensures |r| == PairCount(items, products, orderId)
    decreases |items|
  {
    if |items| == 0 then []
    else
      var rest := JoinOrderProducts(items[1..], products, orderId);
      if items[0].orderId == orderId then JoinItem(items[0], products) + rest else rest
  }

  /** Every joined row pairs an item of the order with a stored product of the same id. */
  lemma {:induction false} JoinSound(items: seq<OrderItem>, products: seq<Product>, orderId: string)
    ensures forall x :: x in JoinOrderProducts(items, products, orderId) ==>
              DescribesProduct(x, products) && exists item :: item in items && item.orderId == orderId && Carries(x, item)
    decreases |items|
  {
    if |items| > 0 {
      JoinSound(items[1..], products, orderId);
      assert forall item :: item in items[1..] ==> item in items;
    }
  }

  /** Every item of the order whose product exists shows up with its price and freight. */
  lemma {:induction false} JoinComplete(items: seq<OrderItem>, products: seq<Product>, orderId: string)
    ensures forall item :: item in items && item.orderId == orderId && KeyPresent(products, ProductKey, item.productId) ==>
              exists x :: x in JoinOrderProducts(items, products, orderId) && Carries(x, item)
    decreases |items|
  {
    if |items| > 0 {
      var here := if items[0].orderId == orderId then JoinItem(items[0], products) else [];
      var rest := JoinOrderProducts(items[1..], products, orderId);
      JoinComplete(items[1..], products, orderId);
      if items[0].orderId == orderId && KeyPresent(products, ProductKey, items[0].productId) {
        JoinItemNonEmpty(items[0], products);
        assert here[0] in here + rest;
      }
      assert forall item :: item in items ==> item == items[0] || item in items[1..];
    }
  }

  /** An order with no items, known or not, joins to no rows. */
  lemma {:induction false} JoinWithoutItems(items: seq<OrderItem>, products: seq<Product>, orderId: string)
    ensures (forall item :: item in items ==> item.orderId != orderId) ==> JoinOrderProducts(items, products, orderId) == []
    decreases |items|
  {
    if |items| > 0 {
      assert items[0] in items;
      assert forall item :: item in items[1..] ==> item in items;
      JoinWithoutItems(items[1..], products, orderId);
    }
  }

  function PaymentOrder(p: Payment): string { p.orderId }
  function ReviewOrder(r: Review): string { r.orderId }

  /** The products of an order; an order with no items, or no such order, gives none. */
  function FindProductsByOrderId(st: Store, id: string): (r: Result<seq<OrderProduct>, DbError>)
    ensures r.Ok? <==> st.failure.None?
    ensures st.failure.Some? ==> r == Err(st.failure.value)
    ensures r.Ok? ==> r.value == JoinOrderProducts(st.orderItems, st.products, id)
    ensures r.Ok? ==> |r.value| == PairCount(st.orderItems, st.products, id)
    ensures r.Ok? ==> forall x :: x in r.value ==>
              DescribesProduct(x, st.products)
              && exists item :: item in st.orderItems && item.orderId == id && Carries(x, item)
    ensures r.Ok? ==> forall item :: item in st.orderItems && item.orderId == id
                                     && KeyPresent(st.products, ProductKey, item.productId) ==>
              exists x :: x in r.value && Carries(x, item)
    ensures r.Ok? && (forall item :: item in st.orderItems ==> item.orderId != id) ==> r.value == []
  {
    if st.failure.Some? then Err(st.failure.value)
    else
      JoinSound(st.orderItems, st.products, id);
      JoinComplete(st.orderItems, st.products, id);
      JoinWithoutItems(st.orderItems, st.products, id);
      Ok(JoinOrderProducts(st.orderItems, st.products, id))
  }

  /** `SELECT ... FROM payments WHERE order_id = $1`. */
  function FindPaymentsByOrderId(st: Store, id: string): (r: Result<seq<Payment>, DbError>)
    ensures r.Ok? <==> st.failure.None?
    ensures st.failure.Some? ==> r == Err(st.failure.value)
    ensures r.Ok? ==> forall p :: p in r.value <==> p in st.payments && p.orderId == id
    ensures r.Ok? ==> |r.value| == Count(st.payments, KeyIs(PaymentOrder, id)) && multiset(r.value) <= multiset(st.payments)
  {
    if st.failure.Some? then Err(st.failure.value)
    else
      assert forall p :: KeyIs(PaymentOrder, id)(p) <==> p.orderId == id;
      CountIsSelectLength(st.payments, KeyIs(PaymentOrder, id));
      Ok(Select(st.payments, KeyIs(PaymentOrder, id)))
  }

  /** `SELECT ... FROM reviews WHERE order_id = $1`. */
  function FindReviewsByOrderId(st: Store, id: string): (r: Result<seq<Review>, DbError>)
    ensures r.Ok? <==> st.failure.None?
    ensures st.failure.Some? ==> r == Err(st.failure.value)
    ensures r.Ok? ==> forall v :: v in r.value <==> v in st.reviews && v.orderId == id
    ensures r.Ok? ==> |r.value| == Count(st.reviews, KeyIs(ReviewOrder, id)) && multiset(r.value) <= multiset(st.reviews)
  {
    if st.failure.Some? then Err(st.failure.value)
    else
      assert forall v :: KeyIs(ReviewOrder, id)(v) <==> v.orderId == id;
      CountIsSelectLength(st.reviews, KeyIs(ReviewOrder, id));
      Ok(Select(st.reviews, KeyIs(ReviewOrder, id)))
  }
}

/** The products table (`PgProductRepository`). */
module ProductRepository {
  import opened Wrappers
  import opened Errors
  import opened Models
  import opened Tables
  import opened Database

  /** The row an insert of `dto` stores and returns. */
  function FromDto(dto: CreateProductDto): Product {
    Product(dto.productId, dto.productCategoryName, dto.dimensions)
  }

  predicate Matches(filter: ProductFilter, p: Product) {
    MatchesNullable(filter.categoryName, p.productCategoryName)
  }

  /** The WHERE clause of both list queries. */
  function Where(filter: ProductFilter): Product -> bool {
    p => Matches(filter, p)
  }

  /** `INSERT INTO products ... RETURNING *`; storage errors come back untouched. */
  function Create(st: Store, dto: CreateProductDto): (e: Effect<Product>)
    ensures e.result.Ok? <==> st.failure.None? && !KeyPresent(st.products, ProductKey, dto.productId)
    ensures e.result.Ok? ==> e.result.value == FromDto(dto)
    ensures e.result.Ok? ==> e.store == st.(products := st.products + [FromDto(dto)])
    ensures st.failure.Some? ==> e.result == Err(st.failure.value)
    ensures st.failure.None? && e.result.Err? ==> IsUniqueViolation(e.result.error)
    ensures e.result.Err? ==> e.store == st
    ensures Consistent(st) ==> Consistent(e.store)
  {
    var w := InsertUnique(st.products, ProductKey, FromDto(dto), st.failure);
    Effect(w.result, st.(products := w.rows))
  }

  /**
   The count query and the page query under the same category filter, highest
   product id first. A product whose category is NULL matches no category filter.
   */
  function FindAll(st: Store, filter: ProductFilter, normalize: Normalizer, pagination: PaginationParams)
    : (r: Result<Listing<Product>, DbError>)
    ensures r.Ok? <==> st.failure.None? && normalize(pagination).limit >= 0 && normalize(pagination).offset >= 0
    ensures st.failure.Some? ==> r == Err(st.failure.value)
    ensures r.Ok? ==> r.value.totalCount == Count(st.products, Where(filter))
    ensures r.Ok? ==> |r.value.items| <= normalize(pagination).limit && |r.value.items| <= r.value.totalCount
    ensures r.Ok? ==> forall p :: p in r.value.items ==> p in st.products && Matches(filter, p)
    ensures r.Ok? && filter.categoryName.Some? ==> forall p :: p in r.value.items ==> p.productCategoryName.Some?
    ensures r.Ok? ==> IsOrderedPage(r.value.items, Select(st.products, Where(filter)), ProductKey,
                                    normalize(pagination).offset, normalize(pagination).limit)
  {
    var n := Paging(normalize, pagination);
    ListOrdered(st.products, Where(filter), ProductKey, n.limit, n.offset, st.failure)
  }

  /**
   Products are listed by their primary key, so paging from the first page
   returns every matching product exactly once, for every way the pages may be
   served, and the page sizes add up to the count.
   */
  lemma WalkCoversMatches(st: Store, filter: ProductFilter, pages: seq<seq<Product>>, limit: nat)
    requires Consistent(st)
    requires limit > 0 && IsOrderedWalk(pages, Select(st.products, Where(filter)), ProductKey, limit, 0)
    ensures multiset(Flatten(pages)) == multiset(Select(st.products, Where(filter)))
    ensures |Flatten(pages)| == Count(st.products, Where(filter))
  {
    var matching := Select(st.products, Where(filter));
    SelectKeepsKeysUnique(st.products, Where(filter), ProductKey);
    OrderedWalkCoversMatches(pages, matching, ProductKey, limit);
    OrderedWalkLength(pages, matching, ProductKey, limit, 0);
    CountIsSelectLength(st.products, Where(filter));
  }

  /** `SELECT * FROM products WHERE product_id = $1` with `fetch_optional`: absence is not an error. */
  function FindById(st: Store, id: string): (r: Result<Option<Product>, DbError>)
    ensures r.Ok? <==> st.failure.None?
    ensures st.failure.Some? ==> r == Err(st.failure.value)
    ensures r.Ok? ==> (r.value.None? <==> !KeyPresent(st.products, ProductKey, id))
    ensures r.Ok? && r.value.Some? ==> r.value.value in st.products && r.value.value.productId == id
  {
    if st.failure.Some? then Err(st.failure.value)
    else Ok(FindFirst(st.products, KeyIs(ProductKey, id)))
  }
}
