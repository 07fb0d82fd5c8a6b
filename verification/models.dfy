/**
 The rows, request payloads, filters and paging values the core passes around.
 Their field lists follow the columns the repository's SQL reads and writes;
 the collaborators that normalise paging and validate payloads are not part of
 this model and enter the operations as function-typed parameters.
 */
module Models {
  import opened Wrappers
  import opened Errors

  /** Exact decimal money (an arbitrary-precision decimal in the service). */
  type Money = real

  datatype Customer = Customer(
    customerId: string,
    customerUniqueId: string,
    customerZipCodePrefix: string,
    customerCity: string,
    customerState: string)

  datatype CreateCustomerDto = CreateCustomerDto(
    customerId: string,
    customerUniqueId: string,
    customerZipCodePrefix: string,
    customerCity: string,
    customerState: string)

  /** A partial update: a present field replaces the stored one, an absent one keeps it. */
  datatype UpdateCustomerDto = UpdateCustomerDto(
    customerUniqueId: Option<string>,
    customerZipCodePrefix: Option<string>,
    customerCity: Option<string>,
    customerState: Option<string>)

  datatype Seller = Seller(
    sellerId: string,
    sellerZipCodePrefix: string,
    sellerCity: string,
    sellerState: string)

  datatype CreateSellerDto = CreateSellerDto(
    sellerId: string,
    sellerZipCodePrefix: string,
    sellerCity: string,
    sellerState: string)

  /** Timestamps are free text, as stored; nothing checks their format, and they sort as text. */
  datatype Order = Order(
    orderId: string,
    customerId: string,
    orderStatus: string,
    orderPurchaseTimestamp: string,
    orderApprovedAt: Option<string>,
    orderDeliveredCarrierDate: Option<string>,
    orderDeliveredCustomerDate: Option<string>,
    orderEstimatedDeliveryDate: Option<string>)

  datatype CreateOrderDto = CreateOrderDto(
    orderId: string,
    customerId: string,
    orderStatus: string,
    orderPurchaseTimestamp: string,
    orderApprovedAt: Option<string>,
    orderDeliveredCarrierDate: Option<string>,
    orderDeliveredCustomerDate: Option<string>,
    orderEstimatedDeliveryDate: Option<string>)

  datatype OrderItem = OrderItem(
    orderItemId: int,
    orderId: string,
    productId: string,
    sellerId: string,
    shippingLimitDate: string,
    price: Money,
    freightValue: Money)

  /** An item payload; the order it joins comes from the request path. */
  datatype AddItemToOrderDto = AddItemToOrderDto(
    orderItemId: int,
    productId: string,
    sellerId: string,
    shippingLimitDate: string,
    price: Money,
    freightValue: Money)

  /** The product's physical attributes (the column names' spelling `lenght` is the schema's). */
  datatype ProductDimensions = ProductDimensions(
    productNameLenght: Option<int>,
    productDescriptionLenght: Option<int>,
    productPhotosQty: Option<int>,
    productWeightG: Option<int>,
    productLengthCm: Option<int>,
    productHeightCm: Option<int>,
    productWidthCm: Option<int>)

  /** The category column may be NULL. */
  datatype Product = Product(
    productId: string,
    productCategoryName: Option<string>,
    dimensions: ProductDimensions)

  datatype CreateProductDto = CreateProductDto(
    productId: string,
    productCategoryName: Option<string>,
    dimensions: ProductDimensions)

  /** One row of the products-of-an-order join: the product's columns and the item's price columns. */
  datatype OrderProduct = OrderProduct(
    productId: string,
    productCategoryName: Option<string>,
    dimensions: ProductDimensions,
    shippingLimitDate: string,
    price: Money,
    freightValue: Money)

  datatype OrderProductResponse = OrderProductResponse(products: seq<OrderProduct>, totalValue: Money)

  datatype Payment = Payment(
    orderId: string,
    paymentSequential: int,
    paymentType: string,
    paymentInstallments: int,
    paymentValue: Money)

  datatype Review = Review(
    reviewId: string,
    orderId: string,
    reviewScore: int,
    reviewCommentTitle: Option<string>,
    reviewCommentMessage: Option<string>,
    reviewCreationDate: string,
    reviewAnswerTimestamp: string)

  /** Equality filters for customers and sellers; an absent field places no constraint. */
  datatype LocationFilter = LocationFilter(city: Option<string>, state: Option<string>)

  datatype OrderFilter = OrderFilter(status: Option<string>)

  datatype ProductFilter = ProductFilter(categoryName: Option<string>)

  /** The caller's raw paging input. */
  datatype PaginationParams = PaginationParams(page: Option<int>, pageSize: Option<int>)

  /** What normalising paging input yields: `(limit, offset, page, page_size)`. */
  datatype Normalized = Normalized(limit: int, offset: int, page: int, pageSize: int)

  /** The paging normaliser, whose clamping rules are outside this model. */
  type Normalizer = PaginationParams -> Normalized

  /** A payload validator: `None` when the payload passes, the per-field report otherwise. */
  type Validator<-D> = D -> Option<ValidationErrors>

  /** A list query, seen through its two projections. */
  datatype SearchQuery<F> = SearchQuery(filter: F, pagination: PaginationParams)

  /** The list envelope; the page count it also carries is computed outside this model. */
  datatype PaginatedResponse<T> = PaginatedResponse(
    items: seq<T>,
    totalRecords: nat,
    page: int,
    pageSize: int)
}
