/**
 What every service shares: the shape of a service call's outcome and the two
 ways a storage answer is turned into an application result (src/services.rs).
 */
module ServiceCore {
  import opened Wrappers
  import opened Errors
  import opened Models
  import opened Tables
  import opened Database

  /**
   A state-changing service call's answer, the database after it, and whether
   the call reached the database at all.
   */
  datatype Reply<T> = Reply(result: Result<T, AppError>, store: Store, touchedStorage: bool)

  /** A plain `?` on a repository answer: every storage error becomes `DatabaseError`. */
  function Lift<T>(r: Result<T, DbError>): (a: Result<T, AppError>)
    ensures a.Ok? <==> r.Ok?
    ensures a.Ok? ==> a.value == r.value
    ensures a.Err? ==> a.error == DatabaseError(r.error) && !a.error.AlreadyExists?
  {
    match r
    case Ok(v) => Ok(v)
    case Err(e) => Err(FromDbError(e))
  }

  /** `match repository.find_...(id).await? { Some(x) => Ok(x), None => Err(NotFound) }`. */
  function Found<T>(r: Result<Option<T>, DbError>): (a: Result<T, AppError>)
    ensures a.Ok? <==> r.Ok? && r.value.Some?
    ensures a.Ok? ==> a.value == r.value.value
    ensures a == Err(NotFound) <==> r.Ok? && r.value.None?
    ensures r.Err? ==> a == Err(DatabaseError(r.error))
  {
    match r
    case Err(e) => Err(FromDbError(e))
    case Ok(None) => Err(NotFound)
    case Ok(Some(x)) => Ok(x)
  }

  /** A create's outcome: storage errors pass through the duplicate-key classifier. */
  function Created<T>(e: Effect<T>, resourceName: string): (r: Reply<T>)
    ensures r.touchedStorage && r.store == e.store
    ensures r.result.Ok? <==> e.result.Ok?
    ensures r.result.Ok? ==> r.result.value == e.result.value
    ensures e.result.Err? ==> r.result == Err(MapDbError(e.result.error, resourceName))
  {
    match e.result
    case Ok(v) => Reply(Ok(v), e.store, true)
    case Err(err) => Reply(Err(MapDbError(err, resourceName)), e.store, true)
  }

  /** The list envelope: the repository's page and count, with the normalised page and page size. */
  function Envelope<T>(listing: Listing<T>, n: Normalized): (p: PaginatedResponse<T>)
    ensures p.items == listing.items && p.totalRecords == listing.totalCount
    ensures p.page == n.page && p.pageSize == n.pageSize
  {
    PaginatedResponse(listing.items, listing.totalCount, n.page, n.pageSize)
  }
}

/** `CustomerService`: create, get, update, delete and list customers. */
module CustomerService {
  import opened Wrappers
  import opened Errors
  import opened Models
  import opened Tables
  import opened Database
  import opened ServiceCore
  import Repo = CustomerRepository

  /**
   Validation comes first and a rejected payload never reaches the database;
   a duplicate id is reported as a conflict on "Customer", any other storage
   error as a database failure.
   */
  function Create(st: Store, validate: Validator<CreateCustomerDto>, dto: CreateCustomerDto): (r: Reply<Customer>)
    ensures validate(dto).Some? ==> r == Reply(Err(ValidationError(validate(dto).value)), st, false)
    ensures r.touchedStorage <==> validate(dto).None?
    ensures r.result.Ok? <==>
              validate(dto).None? && st.failure.None? && !KeyPresent(st.customers, CustomerKey, dto.customerId)
    ensures r.result.Ok? ==>
              r.result.value == Repo.FromDto(dto) && r.store == st.(customers := st.customers + [Repo.FromDto(dto)])
    ensures validate(dto).None? && st.failure.None? && KeyPresent(st.customers, CustomerKey, dto.customerId) ==>
              r.result == Err(AlreadyExists("Customer already exists"))
    ensures validate(dto).None? && st.failure.Some? ==> r.result == Err(MapDbError(st.failure.value, "Customer"))
    ensures r.result.Err? ==> r.store == st
    ensures Consistent(st) ==> Consistent(r.store)
  {
    match validate(dto)
    case Some(v) => Reply(Err(FromValidationErrors(v)), st, false)
    case None =>
      assert "Customer" + " already exists" == "Customer already exists";
      Created(Repo.Create(st, dto), "Customer")
  }

  /** An absent customer is `NotFound`; a present one is returned as stored. */
  function Get(st: Store, id: string): (r: Result<Customer, AppError>)
    ensures r.Ok? <==> st.failure.None? && KeyPresent(st.customers, CustomerKey, id)
    ensures r == Err(NotFound) <==> st.failure.None? && !KeyPresent(st.customers, CustomerKey, id)
    ensures st.failure.Some? ==> r == Err(DatabaseError(st.failure.value))
    ensures r.Ok? ==> r.value in st.customers && r.value.customerId == id
  {
    Found(Repo.FindById(st, id))
  }

  /** Some field of a partial update is present. */
  predicate HasChanges(dto: UpdateCustomerDto) {
    dto.customerUniqueId.Some? || dto.customerZipCodePrefix.Some? || dto.customerCity.Some? || dto.customerState.Some?
  }

  /**
   Validation first, then the empty-update check, and only then the database:
   neither rejection touches storage, and a validation failure wins over an
   empty update. A missing customer is `NotFound` and changes nothing.
   */
  function Update(st: Store, validate: Validator<UpdateCustomerDto>, id: string, dto: UpdateCustomerDto)
    : (r: Reply<Customer>)
    ensures validate(dto).Some? ==> r == Reply(Err(ValidationError(validate(dto).value)), st, false)
    ensures validate(dto).None? && !HasChanges(dto) ==> r == Reply(Err(NoChangesToUpdate), st, false)
    ensures r.touchedStorage <==> validate(dto).None? && HasChanges(dto)
    ensures r.result.Ok? <==> r.touchedStorage && st.failure.None? && KeyPresent(st.customers, CustomerKey, id)
    ensures r.touchedStorage && st.failure.None? && !KeyPresent(st.customers, CustomerKey, id) ==>
              r == Reply(Err(NotFound), st, true)
    ensures r.touchedStorage && st.failure.Some? ==> r == Reply(Err(DatabaseError(st.failure.value)), st, true)
    ensures r.result.Ok? ==>
              exists i :: 0 <= i < |st.customers| && st.customers[i].customerId == id
                          && r.result.value == Repo.Coalesce(st.customers[i], dto)
    ensures r.result.Ok? ==> r.result.value.customerId == id
    ensures r.result.Ok? ==> r.store == st.(customers := Repo.UpdateRows(st.customers, id, dto))
    ensures Consistent(st) ==> Consistent(r.store)
  {
    match validate(dto)
    case Some(v) => Reply(Err(FromValidationErrors(v)), st, false)
    case None =>
      if !HasChanges(dto) then Reply(Err(NoChangesToUpdate), st, false)
      else
        var e := Repo.Update(st, id, dto);
        Reply(Found(e.result), e.store, true)
  }

  /** A delete that removes no row is `NotFound`; otherwise the customer is gone. */
  function Delete(st: Store, id: string): (r: Reply<()>)
    ensures r.touchedStorage
    ensures r.result.Ok? <==> st.failure.None? && KeyPresent(st.customers, CustomerKey, id)
    ensures st.failure.None? && !KeyPresent(st.customers, CustomerKey, id) ==> r.result == Err(NotFound)
    ensures st.failure.Some? ==> r == Reply(Err(DatabaseError(st.failure.value)), st, true)
    ensures r.store == st.(customers := r.store.customers)
    ensures st.failure.None? ==> forall c :: c in r.store.customers <==> c in st.customers && c.customerId != id
    ensures Consistent(st) ==> Consistent(r.store)
  {
    var e := Repo.Delete(st, id);
    match e.result
    case Err(err) => Reply(Err(FromDbError(err)), e.store, true)
    case Ok(removed) => Reply(if removed == 0 then Err(NotFound) else Ok(()), e.store, true)
  }

  /**
   The list envelope: the repository's page and total exactly as returned, and
   the page and page size the normaliser derives from the same paging input the
   repository was given.
   */
  function List(st: Store, normalize: Normalizer, query: SearchQuery<LocationFilter>)
    : (r: Result<PaginatedResponse<Customer>, AppError>)
    ensures r.Ok? <==> Repo.FindAll(st, query.filter, normalize, query.pagination).Ok?
    ensures r.Err? ==> r.error == DatabaseError(Repo.FindAll(st, query.filter, normalize, query.pagination).error)
    ensures r.Ok? ==> r.value.items == Repo.FindAll(st, query.filter, normalize, query.pagination).value.items
    ensures r.Ok? ==> r.value.totalRecords == Count(st.customers, Repo.Where(query.filter))
    ensures r.Ok? ==> r.value.page == normalize(query.pagination).page
                      && r.value.pageSize == normalize(query.pagination).pageSize
    ensures r.Ok? ==> |r.value.items| <= r.value.totalRecords
  {
    var n := normalize(query.pagination);
    match Repo.FindAll(st, query.filter, normalize, query.pagination)
    case Err(e) => Err(FromDbError(e))
    case Ok(listing) => Ok(Envelope(listing, n))
  }

  /** A customer just created is found by its id, exactly as it was stored. */
  lemma {:induction false} CreateThenGet(st: Store, validate: Validator<CreateCustomerDto>, dto: CreateCustomerDto)
    requires Consistent(st)
    requires Create(st, validate, dto).result.Ok?
    ensures Get(Create(st, validate, dto).store, dto.customerId) == Ok(Repo.FromDto(dto))
  {
    var after := Create(st, validate, dto).store;
    assert after.customers[|st.customers|] == Repo.FromDto(dto);
    FindFirstByKey(after.customers, CustomerKey, |st.customers|);
  }

  /** Creating the same customer twice: the second create is a conflict and changes nothing. */
  lemma {:induction false} CreateTwiceConflicts(st: Store, validate: Validator<CreateCustomerDto>, dto: CreateCustomerDto)
    requires Create(st, validate, dto).result.Ok?
    ensures var once := Create(st, validate, dto).store;
            Create(once, validate, dto) == Reply(Err(AlreadyExists("Customer already exists")), once, true)
  {
    var once := Create(st, validate, dto).store;
    assert CustomerKey(once.customers[|st.customers|]) == dto.customerId;
  }

  /** After a successful update, reading the customer back gives the updated row. */
  lemma {:induction false} UpdateThenGet(st: Store, validate: Validator<UpdateCustomerDto>, id: string, dto: UpdateCustomerDto)
    requires Consistent(st)
    requires Update(st, validate, id, dto).result.Ok?
    ensures Get(Update(st, validate, id, dto).store, id) == Update(st, validate, id, dto).result
  {
    var r := Update(st, validate, id, dto);
    var i :| 0 <= i < |st.customers| && st.customers[i].customerId == id
             && r.result.value == Repo.Coalesce(st.customers[i], dto);
    assert r.store.customers[i] == r.result.value;
    FindFirstByKey(r.store.customers, CustomerKey, i);
  }

  /** A second delete of the same id finds nothing to remove. */
  lemma {:induction false} DeleteTwiceNotFound(st: Store, id: string)
    requires st.failure.None?
    ensures Delete(Delete(st, id).store, id).result == Err(NotFound)
  {
  }
}

/** `SellerService`: create, get and list sellers. */
module SellerService {
  import opened Wrappers
  import opened Errors
  import opened Models
  import opened Tables
  import opened Database
  import opened ServiceCore
  import Repo = SellerRepository

  /** Validation first; a duplicate id is a conflict on "Seller". */
  function Create(st: Store, validate: Validator<CreateSellerDto>, dto: CreateSellerDto): (r: Reply<Seller>)
    ensures validate(dto).Some? ==> r == Reply(Err(ValidationError(validate(dto).value)), st, false)
    ensures r.touchedStorage <==> validate(dto).None?
    ensures r.result.Ok? <==>
              validate(dto).None? && st.failure.None? && !KeyPresent(st.sellers, SellerKey, dto.sellerId)
    ensures r.result.Ok? ==>
              r.result.value == Repo.FromDto(dto) && r.store == st.(sellers := st.sellers + [Repo.FromDto(dto)])
    ensures validate(dto).None? && st.failure.None? && KeyPresent(st.sellers, SellerKey, dto.sellerId) ==>
              r.result == Err(AlreadyExists("Seller already exists"))
    ensures validate(dto).None? && st.failure.Some? ==> r.result == Err(MapDbError(st.failure.value, "Seller"))
    ensures r.result.Err? ==> r.store == st
    ensures Consistent(st) ==> Consistent(r.store)
  {
    match validate(dto)
    case Some(v) => Reply(Err(FromValidationErrors(v)), st, false)
    case None =>
      assert "Seller" + " already exists" == "Seller already exists";
      Created(Repo.Create(st, dto), "Seller")
  }

  /** An absent seller is `NotFound`; a present one is returned as stored. */
  function Get(st: Store, id: string): (r: Result<Seller, AppError>)
    ensures r.Ok? <==> st.failure.None? && KeyPresent(st.sellers, SellerKey, id)
    ensures r == Err(NotFound) <==> st.failure.None? && !KeyPresent(st.sellers, SellerKey, id)
    ensures st.failure.Some? ==> r == Err(DatabaseError(st.failure.value))
    ensures r.Ok? ==> r.value in st.sellers && r.value.sellerId == id
  {
    Found(Repo.FindById(st, id))
  }

  /** The list envelope: the repository's page and total, the normalised page and page size. */
  function List(st: Store, normalize: Normalizer, query: SearchQuery<LocationFilter>)
    : (r: Result<PaginatedResponse<Seller>, AppError>)
    ensures r.Ok? <==> Repo.FindAll(st, query.filter, normalize, query.pagination).Ok?
    ensures r.Err? ==> r.error == DatabaseError(Repo.FindAll(st, query.filter, normalize, query.pagination).error)
    ensures r.Ok? ==> r.value.items == Repo.FindAll(st, query.filter, normalize, query.pagination).value.items
    ensures r.Ok? ==> r.value.totalRecords == Count(st.sellers, Repo.Where(query.filter))
    ensures r.Ok? ==> r.value.page == normalize(query.pagination).page
                      && r.value.pageSize == normalize(query.pagination).pageSize
    ensures r.Ok? ==> |r.value.items| <= r.value.totalRecords
  {
    var n := normalize(query.pagination);
    match Repo.FindAll(st, query.filter, normalize, query.pagination)
    case Err(e) => Err(FromDbError(e))
    case Ok(listing) => Ok(Envelope(listing, n))
  }
}

/** `OrderService`: orders, their items, and the products, payments and reviews of an order. */
module OrderService {
  import opened Wrappers
  import opened Errors
  import opened Models
  import opened Tables
  import opened Database
  import opened ServiceCore
  import Repo = OrderRepository

  /** Validation first; a duplicate id is a conflict on "Order". */
  function Create(st: Store, validate: Validator<CreateOrderDto>, dto: CreateOrderDto): (r: Reply<Order>)
    ensures validate(dto).Some? ==> r == Reply(Err(ValidationError(validate(dto).value)), st, false)
    ensures r.touchedStorage <==> validate(dto).None?
    ensures r.result.Ok? <==>
              validate(dto).None? && st.failure.None? && !KeyPresent(st.orders, OrderKey, dto.orderId)
    ensures r.result.Ok? ==>
              r.result.value == Repo.FromDto(dto) && r.store == st.(orders := st.orders + [Repo.FromDto(dto)])
    ensures validate(dto).None? && st.failure.None? && KeyPresent(st.orders, OrderKey, dto.orderId) ==>
              r.result == Err(AlreadyExists("Order already exists"))
    ensures validate(dto).None? && st.failure.Some? ==> r.result == Err(MapDbError(st.failure.value, "Order"))
    ensures r.result.Err? ==> r.store == st
    ensures Consistent(st) ==> Consistent(r.store)
  {
    match validate(dto)
    case Some(v) => Reply(Err(FromValidationErrors(v)), st, false)
    case None =>
      assert "Order" + " already exists" == "Order already exists";
      Created(Repo.Create(st, dto), "Order")
  }

  /**
   Validation first; storage errors take the plain conversion, so a duplicate
   item is a database failure and never a conflict.
   */
  function AddItemToOrder(st: Store, validate: Validator<AddItemToOrderDto>, orderId: string, dto: AddItemToOrderDto)
    : (r: Reply<OrderItem>)
    ensures validate(dto).Some? ==> r == Reply(Err(ValidationError(validate(dto).value)), st, false)
    ensures r.touchedStorage <==> validate(dto).None?
    ensures r.result.Ok? <==>
              validate(dto).None? && st.failure.None?
              && !KeyPresent(st.orderItems, OrderItemKey, (orderId, dto.orderItemId))
    ensures r.result.Ok? ==>
              r.result.value == Repo.ItemFromDto(orderId, dto)
              && r.store == st.(orderItems := st.orderItems + [Repo.ItemFromDto(orderId, dto)])
    ensures r.touchedStorage && r.result.Err? ==> r.result.error.DatabaseError? && r.store == st
    ensures validate(dto).None? && st.failure.None?
            && KeyPresent(st.orderItems, OrderItemKey, (orderId, dto.orderItemId)) ==>
              r.result.Err? && r.result.error.DatabaseError? && IsUniqueViolation(r.result.error.cause)
    ensures Consistent(st) ==> Consistent(r.store)
  {
    match validate(dto)
    case Some(v) => Reply(Err(FromValidationErrors(v)), st, false)
    case None =>
      var e := Repo.AddItem(st, orderId, dto);
      Reply(Lift(e.result), e.store, true)
  }

  /** An absent order is `NotFound`; a present one is returned as stored. */
  function Get(st: Store, id: string): (r: Result<Order, AppError>)
    ensures r.Ok? <==> st.failure.None? && KeyPresent(st.orders, OrderKey, id)
    ensures r == Err(NotFound) <==> st.failure.None? && !KeyPresent(st.orders, OrderKey, id)
    ensures st.failure.Some? ==> r == Err(DatabaseError(st.failure.value))
    ensures r.Ok? ==> r.value in st.orders && r.value.orderId == id
  {
    Found(Repo.FindById(st, id))
  }

  // ---------------------------------------------------------------- the total value of an order

  /** What one joined row adds to the total. */
  function LineValue(p: OrderProduct): Money {
    p.price + p.freightValue
  }

  /** The fold the service runs: left to right, starting from `acc`. */
  function Fold(acc: Money, products: seq<OrderProduct>): Money
    decreases |products|
  {
    if |products| == 0 then acc else Fold(acc + products[0].price + products[0].freightValue, products[1..])
  }

  /** `products.iter().fold(0, |acc, p| acc + price + freight_value)`. */
  function TotalValue(products: seq<OrderProduct>): Money {
    Fold(0.0, products)
  }

  /** The sum of price plus freight over the rows, as a plain recursive sum. */
  function SumLines(products: seq<OrderProduct>): Money
    decreases |products|
  {
    if |products| == 0 then 0.0 else LineValue(products[0]) + SumLines(products[1..])
  }

  /** The fold from `acc` adds exactly the sum of the lines to `acc`. */
  lemma {:induction false} FoldIsSum(acc: Money, products: seq<OrderProduct>)
    ensures Fold(acc, products) == acc + SumLines(products)
    decreases |products|
  {
    if |products| > 0 {
      FoldIsSum(acc + products[0].price + products[0].freightValue, products[1..]);
    }
  }

  lemma {:induction false} SumLinesAppend(a: seq<OrderProduct>, b: seq<OrderProduct>)
    ensures SumLines(a + b) == SumLines(a) + SumLines(b)
    decreases |a|
  {
    if |a| == 0 {
      assert a + b == b;
    } else {
      assert (a + b)[1..] == a[1..] + b;
      SumLinesAppend(a[1..], b);
    }
  }

  /** The total does not depend on the order the join returns its rows in. */
  lemma {:induction false} SumLinesPermutation(a: seq<OrderProduct>, b: seq<OrderProduct>)
    requires multiset(a) == multiset(b)
    ensures SumLines(a) == SumLines(b)
    decreases |a|
  {
    if |a| == 0 {
      assert |b| == |multiset(b)|;
    } else {
      var x := a[0];
      assert x in multiset(a);
      var k :| 0 <= k < |b| && b[k] == x;
      var rest := b[..k] + b[k + 1..];
      WithoutOneMultiset(b, k);
      WithoutOneSum(b, k);
      assert a == [x] + a[1..];
      assert multiset(a[1..]) == multiset(a) - multiset{x};
      SumLinesPermutation(a[1..], rest);
    }
  }

  /** Taking the row at `k` out of `b` takes one copy of it out of the multiset. */
  lemma WithoutOneMultiset(b: seq<OrderProduct>, k: nat)
    requires k < |b|
    ensures multiset(b[..k] + b[k + 1..]) == multiset(b) - multiset{b[k]}
  {
    assert b == b[..k] + [b[k]] + b[k + 1..];
    assert multiset(b) == multiset(b[..k]) + multiset{b[k]} + multiset(b[k + 1..]);
  }

  /** Taking the row at `k` out of `b` takes its line value out of the sum. */
  lemma WithoutOneSum(b: seq<OrderProduct>, k: nat)
    requires k < |b|
    ensures SumLines(b) == LineValue(b[k]) + SumLines(b[..k] + b[k + 1..])
  {
    assert b == b[..k] + [b[k]] + b[k + 1..];
    SumLinesAppend(b[..k] + [b[k]], b[k + 1..]);
    SumLinesAppend(b[..k], [b[k]]);
    SumLinesAppend(b[..k], b[k + 1..]);
  }

  /**
   What the items of order `orderId` are worth through the join, computed from
   the items alone: each item counts its price plus freight once per stored
   product with its product id.
   */
  function ItemsTotal(items: seq<OrderItem>, products: seq<Product>, orderId: string): Money
    decreases |items|
  {
    if |items| == 0 then 0.0
    else
      (if items[0].orderId == orderId
       then Times(Count(products, KeyIs(ProductKey, items[0].productId)), items[0].price + items[0].freightValue)
       else 0.0)
      + ItemsTotal(items[1..], products, orderId)
  }

  /** `n` copies of `v` added up, that is `n * v`. */
  function Times(n: nat, v: Money): (r: Money)
    ensures r == n as real * v
  {
    if n == 0 then 0.0 else v + Times(n - 1, v)
  }

  /** The rows one item joins to are worth its price plus freight, once per matching product. */
  lemma {:induction false} JoinItemTotal(item: OrderItem, products: seq<Product>)
    ensures SumLines(Repo.JoinItem(item, products))
            == Times(Count(products, KeyIs(ProductKey, item.productId)), item.price + item.freightValue)
    decreases |products|
  {
    if |products| > 0 {
      var here: seq<OrderProduct> := if products[0].productId == item.productId then [Repo.Joined(products[0], item)] else [];
      JoinItemTotal(item, products[1..]);
      SumLinesAppend(here, Repo.JoinItem(item, products[1..]));
      assert KeyIs(ProductKey, item.productId)(products[0]) <==> products[0].productId == item.productId;
      if products[0].productId == item.productId {
        assert SumLines(here) == item.price + item.freightValue by {
          assert here[1..] == [];
        }
      }
    }
  }

  /**
   The join's line values add up to the order's items' total: the amount the
   service reports depends only on which items the order has and how many
   products carry each item's product id.
   */
  lemma {:induction false} JoinTotal(items: seq<OrderItem>, products: seq<Product>, orderId: string)
    ensures SumLines(Repo.JoinOrderProducts(items, products, orderId)) == ItemsTotal(items, products, orderId)
    decreases |items|
  {
    if |items| > 0 {
      JoinTotal(items[1..], products, orderId);
      if items[0].orderId == orderId {
        JoinTotalOwnItem(items, products, orderId);
      } else {
        JoinSkipsOtherItem(items, products, orderId);
      }
    }
  }

  /** One step of `JoinTotal`, for an item of the order: its rows, then the rest of the join. */
  lemma JoinTotalOwnItem(items: seq<OrderItem>, products: seq<Product>, orderId: string)
    requires |items| > 0 && items[0].orderId == orderId
    requires SumLines(Repo.JoinOrderProducts(items[1..], products, orderId)) == ItemsTotal(items[1..], products, orderId)
    ensures SumLines(Repo.JoinOrderProducts(items, products, orderId)) == ItemsTotal(items, products, orderId)
  {
    JoinUnfoldsOwnItem(items, products, orderId);
    SumLinesAppend(Repo.JoinItem(items[0], products), Repo.JoinOrderProducts(items[1..], products, orderId));
    JoinItemTotal(items[0], products);
    ItemsTotalOwnItem(items, products, orderId);
  }

  lemma ItemsTotalOwnItem(items: seq<OrderItem>, products: seq<Product>, orderId: string)
    requires |items| > 0 && items[0].orderId == orderId
    ensures ItemsTotal(items, products, orderId)
            == Times(Count(products, KeyIs(ProductKey, items[0].productId)), items[0].price + items[0].freightValue)
               + ItemsTotal(items[1..], products, orderId)
  {
  }

  lemma JoinUnfoldsOwnItem(items: seq<OrderItem>, products: seq<Product>, orderId: string)
    requires |items| > 0 && items[0].orderId == orderId
    ensures Repo.JoinOrderProducts(items, products, orderId)
            == Repo.JoinItem(items[0], products) + Repo.JoinOrderProducts(items[1..], products, orderId)
  {
  }

  lemma JoinSkipsOtherItem(items: seq<OrderItem>, products: seq<Product>, orderId: string)
    requires |items| > 0 && items[0].orderId != orderId
    ensures Repo.JoinOrderProducts(items, products, orderId) == Repo.JoinOrderProducts(items[1..], products, orderId)
    ensures ItemsTotal(items, products, orderId) == ItemsTotal(items[1..], products, orderId)
  {
  }

  /**
   The products of an order as the join returns them, with their exact total
   of price plus freight; an order without items, known or not, gives an empty
   list and a zero total rather than `NotFound`.
   */
  function GetProductsByOrderId(st: Store, id: string): (r: Result<OrderProductResponse, AppError>)
    ensures r.Ok? <==> st.failure.None?
    ensures st.failure.Some? ==> r == Err(DatabaseError(st.failure.value))
    ensures r.Ok? ==> r.value.products == Repo.JoinOrderProducts(st.orderItems, st.products, id)
    ensures r.Ok? ==> |r.value.products| == Repo.PairCount(st.orderItems, st.products, id)
    ensures r.Ok? ==> r.value.totalValue == SumLines(r.value.products)
    ensures r.Ok? ==> r.value.totalValue == ItemsTotal(st.orderItems, st.products, id)
    ensures r.Ok? && (forall item :: item in st.orderItems ==> item.orderId != id) ==>
              r.value.products == [] && r.value.totalValue == 0.0
  {
    match Repo.FindProductsByOrderId(st, id)
    case Err(e) => Err(FromDbError(e))
    case Ok(products) =>
      FoldIsSum(0.0, products);
      JoinTotal(st.orderItems, st.products, id);
      Ok(OrderProductResponse(products, TotalValue(products)))
  }

  /** The payments of an order; none for an unknown order. */
  function GetPaymentsByOrderId(st: Store, id: string): (r: Result<seq<Payment>, AppError>)
    ensures r.Ok? <==> st.failure.None?
    ensures st.failure.Some? ==> r == Err(DatabaseError(st.failure.value))
    ensures r.Ok? ==> forall p :: p in r.value <==> p in st.payments && p.orderId == id
    ensures r.Ok? ==> |r.value| == Count(st.payments, KeyIs(Repo.PaymentOrder, id)) && multiset(r.value) <= multiset(st.payments)
  {
    Lift(Repo.FindPaymentsByOrderId(st, id))
  }

  /** The reviews of an order; none for an unknown order. */
  function GetReviewsByOrderId(st: Store, id: string): (r: Result<seq<Review>, AppError>)
    ensures r.Ok? <==> st.failure.None?
    ensures st.failure.Some? ==> r == Err(DatabaseError(st.failure.value))
    ensures r.Ok? ==> forall v :: v in r.value <==> v in st.reviews && v.orderId == id
    ensures r.Ok? ==> |r.value| == Count(st.reviews, KeyIs(Repo.ReviewOrder, id)) && multiset(r.value) <= multiset(st.reviews)
  {
    Lift(Repo.FindReviewsByOrderId(st, id))
  }

  /** The list envelope under a status filter. */
  function List(st: Store, normalize: Normalizer, query: SearchQuery<OrderFilter>)
    : (r: Result<PaginatedResponse<Order>, AppError>)
    ensures r.Ok? <==> Repo.FindAll(st, query.filter, normalize, query.pagination).Ok?
    ensures r.Err? ==> r.error == DatabaseError(Repo.FindAll(st, query.filter, normalize, query.pagination).error)
    ensures r.Ok? ==> r.value.items == Repo.FindAll(st, query.filter, normalize, query.pagination).value.items
    ensures r.Ok? ==> r.value.totalRecords == Count(st.orders, Repo.Where(query.filter))
    ensures r.Ok? ==> r.value.page == normalize(query.pagination).page
                      && r.value.pageSize == normalize(query.pagination).pageSize
    ensures r.Ok? ==> |r.value.items| <= r.value.totalRecords
  {
    var n := normalize(query.pagination);
    match Repo.FindAll(st, query.filter, normalize, query.pagination)
    case Err(e) => Err(FromDbError(e))
    case Ok(listing) => Ok(Envelope(listing, n))
  }

  /** The list envelope for one customer's orders; an unknown customer gives an empty page. */
  function ListByCustomer(st: Store, normalize: Normalizer, customerId: string, pagination: PaginationParams)
    : (r: Result<PaginatedResponse<Order>, AppError>)
    ensures r.Ok? <==> Repo.FindByCustomerId(st, customerId, normalize, pagination).Ok?
    ensures r.Err? ==> r.error == DatabaseError(Repo.FindByCustomerId(st, customerId, normalize, pagination).error)
    ensures r.Ok? ==> r.value.items == Repo.FindByCustomerId(st, customerId, normalize, pagination).value.items
    ensures r.Ok? ==> r.value.totalRecords == Count(st.orders, KeyIs(Repo.OrderCustomer, customerId))
    ensures r.Ok? ==> r.value.page == normalize(pagination).page && r.value.pageSize == normalize(pagination).pageSize
    ensures r.Ok? ==> forall o :: o in r.value.items ==> o in st.orders && o.customerId == customerId
  {
    var n := normalize(pagination);
    match Repo.FindByCustomerId(st, customerId, normalize, pagination)
    case Err(e) => Err(FromDbError(e))
    case Ok(listing) => Ok(Envelope(listing, n))
  }
}

/** `ProductService`: create, get and list products. */
module ProductService {
  import opened Wrappers
  import opened Errors
  import opened Models
  import opened Tables
  import opened Database
  import opened ServiceCore
  import Repo = ProductRepository

  /** Validation first; a duplicate id is a conflict on "Product". */
  function Create(st: Store, validate: Validator<CreateProductDto>, dto: CreateProductDto): (r: Reply<Product>)
    ensures validate(dto).Some? ==> r == Reply(Err(ValidationError(validate(dto).value)), st, false)
    ensures r.touchedStorage <==> validate(dto).None?
    ensures r.result.Ok? <==>
              validate(dto).None? && st.failure.None? && !KeyPresent(st.products, ProductKey, dto.productId)
    ensures r.result.Ok? ==>
              r.result.value == Repo.FromDto(dto) && r.store == st.(products := st.products + [Repo.FromDto(dto)])
    ensures validate(dto).None? && st.failure.None? && KeyPresent(st.products, ProductKey, dto.productId) ==>
              r.result == Err(AlreadyExists("Product already exists"))
    ensures validate(dto).None? && st.failure.Some? ==> r.result == Err(MapDbError(st.failure.value, "Product"))
    ensures r.result.Err? ==> r.store == st
    ensures Consistent(st) ==> Consistent(r.store)
  {
    match validate(dto)
    case Some(v) => Reply(Err(FromValidationErrors(v)), st, false)
    case None =>
      assert "Product" + " already exists" == "Product already exists";
      Created(Repo.Create(st, dto), "Product")
  }

  /** An absent product is `NotFound`; a present one is returned as stored. */
  function Get(st: Store, id: string): (r: Result<Product, AppError>)
    ensures r.Ok? <==> st.failure.None? && KeyPresent(st.products, ProductKey, id)
    ensures r == Err(NotFound) <==> st.failure.None? && !KeyPresent(st.products, ProductKey, id)
    ensures st.failure.Some? ==> r == Err(DatabaseError(st.failure.value))
    ensures r.Ok? ==> r.value in st.products && r.value.productId == id
  {
    Found(Repo.FindById(st, id))
  }

  /** The list envelope under a category filter. */
  function List(st: Store, normalize: Normalizer, query: SearchQuery<ProductFilter>)
    : (r: Result<PaginatedResponse<Product>, AppError>)
    ensures r.Ok? <==> Repo.FindAll(st, query.filter, normalize, query.pagination).Ok?
    ensures r.Err? ==> r.error == DatabaseError(Repo.FindAll(st, query.filter, normalize, query.pagination).error)
    ensures r.Ok? ==> r.value.items == Repo.FindAll(st, query.filter, normalize, query.pagination).value.items
    ensures r.Ok? ==> r.value.totalRecords == Count(st.products, Repo.Where(query.filter))
    ensures r.Ok? ==> r.value.page == normalize(query.pagination).page
                      && r.value.pageSize == normalize(query.pagination).pageSize
    ensures r.Ok? ==> |r.value.items| <= r.value.totalRecords
  {
    var n := normalize(query.pagination);
    match Repo.FindAll(st, query.filter, normalize, query.pagination)
    case Err(e) => Err(FromDbError(e))
    case Ok(listing) => Ok(Envelope(listing, n))
  }
}
