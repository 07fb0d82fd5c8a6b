/**
 The HTTP answers of the state-changing handlers (src/handlers.rs): a success
 status with the JSON of the service's result, or the error's status and
 `{"error": ...}` body.
 */
module Handlers {
  import opened Wrappers
  import opened Errors
  import opened Models
  import opened Tables
  import opened Database
  import opened ServiceCore
  import CustomerService
  import SellerService
  import OrderService
  import ProductService
  import CustomerRepository
  import SellerRepository
  import OrderRepository
  import ProductRepository

  /** A response body: a JSON document, no body at all, or the error document. */
  datatype Body<T> = Json(value: T) | Empty | ErrorJson(error: string)

  datatype HttpResponse<T> = HttpResponse(status: int, body: Body<T>)

  /** A handler's response and the database it leaves behind. */
  datatype Exchange<T> = Exchange(response: HttpResponse<T>, store: Store)

  /** The response for an error the handler's `?` propagates. */
  function Failure<T>(e: AppError): (h: HttpResponse<T>)
    ensures h.body == ErrorJson(IntoResponse(e).error)
    ensures h.status == IntoResponse(e).status && !IsSuccessStatus(h.status)
  {
    var resp := IntoResponse(e);
    HttpResponse(resp.status, ErrorJson(resp.error))
  }

  /** `Ok((status, Json(value)))` for a successful call, the error's response otherwise. */
  function WithJson<T>(r: Result<T, AppError>, status: int): HttpResponse<T> {
    match r
    case Ok(v) => HttpResponse(status, Json(v))
    case Err(e) => Failure(e)
  }

  /**
   `POST /customers`: 201 with the stored customer, 400 for a rejected payload,
   409 with "Customer already exists" for a taken id, 500 for a storage failure.
   */
  function CreateCustomerHandler(st: Store, validate: Validator<CreateCustomerDto>, dto: CreateCustomerDto)
    : (x: Exchange<Customer>)
    ensures x.store == CustomerService.Create(st, validate, dto).store
    ensures IsSuccessStatus(x.response.status) <==> CustomerService.Create(st, validate, dto).result.Ok?
    ensures IsSuccessStatus(x.response.status) ==>
              x.response == HttpResponse(StatusCreated, Json(CustomerRepository.FromDto(dto)))
    ensures validate(dto).Some? ==> x.response.status == StatusBadRequest && x.store == st
    ensures validate(dto).None? && st.failure.None? && KeyPresent(st.customers, CustomerKey, dto.customerId) ==>
              x.response == HttpResponse(StatusConflict, ErrorJson("Customer already exists"))
    ensures validate(dto).None? && st.failure.Some? ==>
              x.response.status == (if IsUniqueViolation(st.failure.value) then StatusConflict else StatusInternalServerError)
  {
    var reply := CustomerService.Create(st, validate, dto);
    Exchange(WithJson(reply.result, StatusCreated), reply.store)
  }

  /**
   `PUT /customers/{id}`: 200 with the updated customer, 400 for a rejected or
   empty update, 404 for an unknown id.
   */
  function UpdateCustomerHandler(st: Store, validate: Validator<UpdateCustomerDto>, id: string, dto: UpdateCustomerDto)
    : (x: Exchange<Customer>)
    ensures x.store == CustomerService.Update(st, validate, id, dto).store
    ensures IsSuccessStatus(x.response.status) <==> CustomerService.Update(st, validate, id, dto).result.Ok?
    ensures IsSuccessStatus(x.response.status) ==>
              x.response == HttpResponse(StatusOk, Json(CustomerService.Update(st, validate, id, dto).result.value))
    ensures IsSuccessStatus(x.response.status) ==> x.response.body.Json? && x.response.body.value.customerId == id
    ensures validate(dto).Some? ==> x.response.status == StatusBadRequest && x.store == st
    ensures validate(dto).None? && !CustomerService.HasChanges(dto) ==>
              x == Exchange(HttpResponse(StatusBadRequest, ErrorJson("No valid fields provided for update.")), st)
    ensures validate(dto).None? && CustomerService.HasChanges(dto) && st.failure.None?
            && !KeyPresent(st.customers, CustomerKey, id) ==>
              x == Exchange(HttpResponse(StatusNotFound, ErrorJson("Resource Not Found")), st)
  {
    var reply := CustomerService.Update(st, validate, id, dto);
    Exchange(WithJson(reply.result, StatusOk), reply.store)
  }

  /** `DELETE /customers/{id}`: 204 with no body when a row was removed, 404 otherwise. */
  function DeleteCustomerHandler(st: Store, id: string): (x: Exchange<()>)
    ensures x.store == CustomerService.Delete(st, id).store
    ensures IsSuccessStatus(x.response.status) <==> st.failure.None? && KeyPresent(st.customers, CustomerKey, id)
    ensures IsSuccessStatus(x.response.status) ==> x.response == HttpResponse(StatusNoContent, Empty)
    ensures st.failure.None? && !KeyPresent(st.customers, CustomerKey, id) ==>
              x.response == HttpResponse(StatusNotFound, ErrorJson("Resource Not Found"))
    ensures st.failure.Some? ==> x.response == HttpResponse(StatusInternalServerError, ErrorJson("Database Operation Failed"))
  {
    var reply := CustomerService.Delete(st, id);
    match reply.result
    case Ok(_) => Exchange(HttpResponse(StatusNoContent, Empty), reply.store)
    case Err(e) => Exchange(Failure(e), reply.store)
  }

  /** `POST /sellers`: 201 with the stored seller, 409 with "Seller already exists" for a taken id. */
  function CreateSellerHandler(st: Store, validate: Validator<CreateSellerDto>, dto: CreateSellerDto)
    : (x: Exchange<Seller>)
    ensures x.store == SellerService.Create(st, validate, dto).store
    ensures IsSuccessStatus(x.response.status) <==> SellerService.Create(st, validate, dto).result.Ok?
    ensures IsSuccessStatus(x.response.status) ==>
              x.response == HttpResponse(StatusCreated, Json(SellerRepository.FromDto(dto)))
    ensures validate(dto).Some? ==> x.response.status == StatusBadRequest && x.store == st
    ensures validate(dto).None? && st.failure.None? && KeyPresent(st.sellers, SellerKey, dto.sellerId) ==>
              x.response == HttpResponse(StatusConflict, ErrorJson("Seller already exists"))
  {
    var reply := SellerService.Create(st, validate, dto);
    Exchange(WithJson(reply.result, StatusCreated), reply.store)
  }

  /** `POST /orders`: 201 with the stored order, 409 with "Order already exists" for a taken id. */
  function CreateOrderHandler(st: Store, validate: Validator<CreateOrderDto>, dto: CreateOrderDto)
    : (x: Exchange<Order>)
    ensures x.store == OrderService.Create(st, validate, dto).store
    ensures IsSuccessStatus(x.response.status) <==> OrderService.Create(st, validate, dto).result.Ok?
    ensures IsSuccessStatus(x.response.status) ==>
              x.response == HttpResponse(StatusCreated, Json(OrderRepository.FromDto(dto)))
    ensures validate(dto).Some? ==> x.response.status == StatusBadRequest && x.store == st
    ensures validate(dto).None? && st.failure.None? && KeyPresent(st.orders, OrderKey, dto.orderId) ==>
              x.response == HttpResponse(StatusConflict, ErrorJson("Order already exists"))
  {
    var reply := OrderService.Create(st, validate, dto);
    Exchange(WithJson(reply.result, StatusCreated), reply.store)
  }

  /**
   `POST /orders/{order_id}/items`: 201 with the stored item; a duplicate item is
   a 500 "Database Operation Failed", never a 409.
   */
  function AddItemToOrderHandler(st: Store, validate: Validator<AddItemToOrderDto>, orderId: string, dto: AddItemToOrderDto)
    : (x: Exchange<OrderItem>)
    ensures x.store == OrderService.AddItemToOrder(st, validate, orderId, dto).store
    ensures IsSuccessStatus(x.response.status) <==> OrderService.AddItemToOrder(st, validate, orderId, dto).result.Ok?
    ensures IsSuccessStatus(x.response.status) ==>
              x.response == HttpResponse(StatusCreated, Json(OrderRepository.ItemFromDto(orderId, dto)))
    ensures x.response.status != StatusConflict
    ensures validate(dto).None? && st.failure.None?
            && KeyPresent(st.orderItems, OrderItemKey, (orderId, dto.orderItemId)) ==>
              x.response == HttpResponse(StatusInternalServerError, ErrorJson("Database Operation Failed"))
  {
    var reply := OrderService.AddItemToOrder(st, validate, orderId, dto);
    Exchange(WithJson(reply.result, StatusCreated), reply.store)
  }

  /** `POST /products`: 201 with the stored product, 409 with "Product already exists" for a taken id. */
  function CreateProductHandler(st: Store, validate: Validator<CreateProductDto>, dto: CreateProductDto)
    : (x: Exchange<Product>)
    ensures x.store == ProductService.Create(st, validate, dto).store
    ensures IsSuccessStatus(x.response.status) <==> ProductService.Create(st, validate, dto).result.Ok?
    ensures IsSuccessStatus(x.response.status) ==>
              x.response == HttpResponse(StatusCreated, Json(ProductRepository.FromDto(dto)))
    ensures validate(dto).None? && st.failure.None? && KeyPresent(st.products, ProductKey, dto.productId) ==>
              x.response == HttpResponse(StatusConflict, ErrorJson("Product already exists"))
  {
    var reply := ProductService.Create(st, validate, dto);
    Exchange(WithJson(reply.result, StatusCreated), reply.store)
  }

  /** Posting the same new customer twice: 201 the first time, 409 the second, and the table keeps one copy. */
  lemma {:induction false} RepeatedCreateIsConflict(st: Store, validate: Validator<CreateCustomerDto>, dto: CreateCustomerDto)
    requires CreateCustomerHandler(st, validate, dto).response.status == StatusCreated
    ensures var once := CreateCustomerHandler(st, validate, dto).store;
            CreateCustomerHandler(once, validate, dto) ==
              Exchange(HttpResponse(StatusConflict, ErrorJson("Customer already exists")), once)
  {
    CustomerService.CreateTwiceConflicts(st, validate, dto);
  }
}

/**
 The bulk load (`load_csv_data` and `load_data_from_csv_handler`): each CSV
 record is decoded and posted to the service's own create endpoint, and the
 outcomes are tallied. Decoding and the HTTP round trip are reduced to one
 outcome per record.
 */
module Ingestion {
  import opened Wrappers
  import opened Errors
  import opened Tables

  /** What became of one record: it did not decode, the endpoint answered, or the request was not delivered. */
  datatype RecordOutcome =
    | ParseFailed(reason: string)
    | Responded(status: int)
    | SendFailed(reason: string)

  /** A record counts as loaded when the endpoint answered with a 2xx status (RFC 9110, section 15.3). */
  predicate Succeeded(o: RecordOutcome) {
    o.Responded? && IsSuccessStatus(o.status)
  }

  /** Opening a CSV file: the open error, or the outcomes of its records in file order. */
  datatype CsvSource = Unreadable(reason: string) | Readable(records: seq<RecordOutcome>)

  datatype Tally = Tally(success: nat, error: nat)

  /** The only fatal failure of a file load. */
  function OpenFailure(reason: string): (e: AppError)
    ensures e.ConfigError? && IntoResponse(e).status == StatusInternalServerError
  {
    ConfigError("Failed to open CSV file: " + reason)
  }

  /**
   `load_csv_data`: an unreadable file is a configuration error before any
   record is looked at; otherwise every record is counted exactly once, as a
   success when the endpoint answered 2xx and as an error in every other case.
   */
  method LoadCsvData(source: CsvSource) returns (r: Result<Tally, AppError>)
    ensures source.Unreadable? ==> r == Err(OpenFailure(source.reason))
    ensures source.Readable? ==> r.Ok?
    ensures r.Ok? ==> r.value.success == Count(source.records, Succeeded)
    ensures r.Ok? ==> r.value.error == Count(source.records, Not(Succeeded))
    ensures r.Ok? ==> r.value.success + r.value.error == |source.records|
  {
    if source.Unreadable? {
      return Err(OpenFailure(source.reason));
    }
    var records := source.records;
    var successCount: nat := 0;
    var errorCount: nat := 0;
    for i := 0 to |records|
      invariant successCount == Count(records[..i], Succeeded)
      invariant errorCount == Count(records[..i], Not(Succeeded))
    {
      assert records[..i + 1] == records[..i] + [records[i]];
      CountSnoc(records[..i], records[i], Succeeded);
      CountSnoc(records[..i], records[i], Not(Succeeded));
      match records[i]
      case ParseFailed(_) =>
        errorCount := errorCount + 1;
      case Responded(status) =>
        if IsSuccessStatus(status) {
          successCount := successCount + 1;
        } else {
          errorCount := errorCount + 1;
        }
      case SendFailed(_) =>
        errorCount := errorCount + 1;
    }
    assert records[..|records|] == records;
    CountComplement(records, Succeeded);
    return Ok(Tally(successCount, errorCount));
  }

  /** Both counters only grow as the loop advances over the records. */
  lemma {:induction false} CountersOnlyGrow(records: seq<RecordOutcome>, i: nat, j: nat)
    requires i <= j <= |records|
    ensures Count(records[..i], Succeeded) <= Count(records[..j], Succeeded)
    ensures Count(records[..i], Not(Succeeded)) <= Count(records[..j], Not(Succeeded))
    decreases j - i
  {
    if i < j {
      CountersOnlyGrow(records, i, j - 1);
      assert records[..j] == records[..j - 1] + [records[j - 1]];
      CountSnoc(records[..j - 1], records[j - 1], Succeeded);
      CountSnoc(records[..j - 1], records[j - 1], Not(Succeeded));
    }
  }

  const CustomersCsv: string := "data/olist_customers_dataset.csv"
  const SellersCsv: string := "data/olist_sellers_dataset.csv"
  const OrdersCsv: string := "data/olist_orders_dataset.csv"

  /** The handler's JSON answer: `{"message", "success_count", "error_count"}`. */
  datatype LoadSummary = LoadSummary(message: string, successCount: nat, errorCount: nat)

  /**
   `load_data_from_csv_handler`: customers, then sellers, then orders. The
   first file that cannot be opened aborts the whole load with its error, and
   the counts of the files before it are dropped; otherwise the totals are the
   sums of the three files' counts.
   */
  method LoadDataFromCsvHandler(open: string -> CsvSource) returns (r: Result<LoadSummary, AppError>)
    ensures r.Ok? <==> open(CustomersCsv).Readable? && open(SellersCsv).Readable? && open(OrdersCsv).Readable?
    ensures open(CustomersCsv).Unreadable? ==> r == Err(OpenFailure(open(CustomersCsv).reason))
    ensures open(CustomersCsv).Readable? && open(SellersCsv).Unreadable? ==>
              r == Err(OpenFailure(open(SellersCsv).reason))
    ensures open(CustomersCsv).Readable? && open(SellersCsv).Readable? && open(OrdersCsv).Unreadable? ==>
              r == Err(OpenFailure(open(OrdersCsv).reason))
    ensures r.Ok? ==> r.value.message == "Data load processed"
    ensures r.Ok? ==> r.value.successCount == Count(open(CustomersCsv).records, Succeeded)
                                              + Count(open(SellersCsv).records, Succeeded)
                                              + Count(open(OrdersCsv).records, Succeeded)
    ensures r.Ok? ==> r.value.errorCount == Count(open(CustomersCsv).records, Not(Succeeded))
                                            + Count(open(SellersCsv).records, Not(Succeeded))
                                            + Count(open(OrdersCsv).records, Not(Succeeded))
    ensures r.Ok? ==> r.value.successCount + r.value.errorCount ==
                      |open(CustomersCsv).records| + |open(SellersCsv).records| + |open(OrdersCsv).records|
  {
    var totalSuccess: nat := 0;
    var totalError: nat := 0;

    var customers := LoadCsvData(open(CustomersCsv));
    if customers.Err? {
      return Err(customers.error);
    }
    totalSuccess := totalSuccess + customers.value.success;
    totalError := totalError + customers.value.error;

    var sellers := LoadCsvData(open(SellersCsv));
    if sellers.Err? {
      return Err(sellers.error);
    }
    totalSuccess := totalSuccess + sellers.value.success;
    totalError := totalError + sellers.value.error;

    var orders := LoadCsvData(open(OrdersCsv));
    if orders.Err? {
      return Err(orders.error);
    }
    totalSuccess := totalSuccess + orders.value.success;
    totalError := totalError + orders.value.error;

    return Ok(LoadSummary("Data load processed", totalSuccess, totalError));
  }
}
