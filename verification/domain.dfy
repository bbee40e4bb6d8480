/** Records the order-creation workflow reads and writes. */
module Domain {

  type ProductId = string
  type CustomerId = string

  /** Prices are only ever copied, so a whole number of cents is enough. */
  type Price = int

  /** One line of the incoming request (`IProduct`): a product and how many
      units of it are wanted. Nothing forces the quantity to be positive. */
  datatype RequestLine = RequestLine(id: ProductId, quantity: int)

  /** A stock record as the product repository returns it. */
  datatype StockItem = StockItem(id: ProductId, price: Price, quantity: int)

  /** A priced order line: price snapshotted from stock, quantity from the request. */
  datatype OrderLine = OrderLine(productId: ProductId, price: Price, quantity: int)

  /** One entry of the list handed to the product repository's quantity update. */
  datatype QuantityUpdate = QuantityUpdate(id: ProductId, quantity: int)

  /** A persisted order; the ledger assigns `id`. */
  datatype Order = Order(id: nat, customer: CustomerId, lines: seq<OrderLine>)

  /** The three rejections the workflow raises. */
  datatype Error = CustomerNotFound | ProductNotFound | InsufficientStock

  /** A catalog entry: current unit price and units in stock. */
  datatype Product = Product(price: Price, quantity: int)

  /** What the three repositories hold: known customers, the product catalog
      and the orders created so far. */
  datatype State = State(
    customers: set<CustomerId>,
    catalog: map<ProductId, Product>,
    orders: seq<Order>)

  // The product ids of a request, of fetched records and of an update list.
  // The three record types are distinct datatypes that each carry an id, so
  // each gets its own projection; the proofs compare these id sequences.

  function RequestIds(rs: seq<RequestLine>): (ids: seq<ProductId>)
    ensures |ids| == |rs|
    ensures forall k :: 0 <= k < |rs| ==> ids[k] == rs[k].id
  {
    seq(|rs|, k requires 0 <= k < |rs| => rs[k].id)
  }

  function StockIds(ss: seq<StockItem>): (ids: seq<ProductId>)
    ensures |ids| == |ss|
    ensures forall i :: 0 <= i < |ss| ==> ids[i] == ss[i].id
  {
    seq(|ss|, i requires 0 <= i < |ss| => ss[i].id)
  }

  function UpdateIds(us: seq<QuantityUpdate>): (ids: seq<ProductId>)
    ensures |ids| == |us|
    ensures forall i :: 0 <= i < |us| ==> ids[i] == us[i].id
  {
    seq(|us|, i requires 0 <= i < |us| => us[i].id)
  }

  function RequestedQuantity(l: RequestLine): int { l.quantity }
  function StockQuantity(s: StockItem): int { s.quantity }
  function LineQuantity(l: OrderLine): int { l.quantity }
  function UpdatedQuantity(u: QuantityUpdate): int { u.quantity }
}
