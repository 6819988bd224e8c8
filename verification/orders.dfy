/**
 * `Order` and `OrderStatus`, the status <-> code maps of both sides, and
 * the writes the server makes to its order book (`processOrder`'s `put` and
 * its worker's two status changes, and the cancel handler's change).
 */
module Orders {
  import opened Wrappers
  import opened JavaLang

  datatype OrderStatus = Pending | New | PartiallyFilled | Filled | Canceled | Rejected

  /**
   * An order. Identity and terms never change; `status` and `filledQty` do.
   * The price is carried as the `%.2f` text it is shown and sent as.
   */
  datatype Order = Order(
    orderId: string,
    clOrdId: string,
    symbol: string,
    side: string,
    quantity: Int32,
    price: string,
    status: OrderStatus,
    filledQty: Int32)

  /** `new Order(...)`: PENDING, nothing filled. */
  function NewOrder(orderId: string, clOrdId: string, symbol: string, side: string,
                    quantity: Int32, price: string): Order
  {
    Order(orderId, clOrdId, symbol, side, quantity, price, Pending, 0)
  }

  /** Same order, same terms: only status and filled quantity may differ. */
  predicate SameTerms(a: Order, b: Order) {
    && a.orderId == b.orderId && a.clOrdId == b.clOrdId && a.symbol == b.symbol
    && a.side == b.side && a.quantity == b.quantity && a.price == b.price
  }

  /** The client's `getOrderStatus`: OrdStatus(39) code to status, PENDING for anything else. */
  function OrderStatusOf(code: string): OrderStatus {
    match code
    case "0" => New
    case "1" => PartiallyFilled
    case "2" => Filled
    case "4" => Canceled
    case "8" => Rejected
    case _ => Pending
  }

  /**
   * The server's `getOrdStatus`. The client reads the code back as the same
   * status exactly for NEW, FILLED and CANCELED; the others are sent as "0".
   */
  function OrdStatusCode(status: OrderStatus): (code: string)
    ensures OrderStatusOf(code) == status <==> status.New? || status.Filled? || status.Canceled?
    ensures !(status.Filled? || status.Canceled?) ==> OrderStatusOf(code) == New
  {
    match status
    case New => "0"
    case Filled => "2"
    case Canceled => "4"
    case _ => "0"
  }

  /** The server's `getExecType`: the same table as `getOrdStatus`. */
  function ExecTypeCode(status: OrderStatus): (code: string)
    ensures code == OrdStatusCode(status)
  {
    match status
    case New => "0"
    case Filled => "2"
    case Canceled => "4"
    case _ => "0"
  }

  /** Side(54) as sent for an order's side: `1` for BUY, `2` for anything else. */
  function SideCode(side: string): string {
    if side == "BUY" then "1" else "2"
  }

  /** The server's reading of Side(54): BUY for `1`, SELL for anything else. */
  function SideName(code: string): string {
    if code == "1" then "BUY" else "SELL"
  }

  /** The two side maps invert each other on BUY/SELL and on `1`/`2`, and nowhere else. */
  lemma SideRoundTrip(side: string, code: string)
    ensures SideName(SideCode(side)) == side <==> side == "BUY" || side == "SELL"
    ensures SideCode(SideName(code)) == code <==> code == "1" || code == "2"
  {
  }

  // ---------------------------------------------------------------------
  // The server's order book, keyed by the broker-assigned OrderID
  // ---------------------------------------------------------------------

  type Book = map<string, Order>

  /**
   * What the server's own writes keep true of an order: only the four
   * statuses it ever sets, and the filled quantity is nothing or all of it,
   * all of it once FILLED.
   */
  predicate ServerOrderOk(o: Order) {
    && (o.status.Pending? || o.status.New? || o.status.Filled? || o.status.Canceled?)
    && (o.filledQty == 0 || o.filledQty == o.quantity)
    && (o.status.Filled? ==> o.filledQty == o.quantity)
  }

  /** Every entry sits under its own OrderID and satisfies `ServerOrderOk`. */
  predicate BookOk(book: Book) {
    forall id :: id in book ==> book[id].orderId == id && ServerOrderOk(book[id])
  }

  /** Every key but `id` keeps its entry. */
  ghost predicate OthersUnchanged(before: Book, after: Book, id: string) {
    forall k :: k != id ==> (k in after <==> k in before) && (k in before ==> after[k] == before[k])
  }

  /** `processOrder`'s `orderBook.put(order.getOrderId(), order)`. */
  function Register(book: Book, order: Order): (r: Book)
    ensures order.orderId in r && r[order.orderId] == order
    ensures OthersUnchanged(book, r, order.orderId)
    ensures BookOk(book) && ServerOrderOk(order) ==> BookOk(r)
  {
    book[order.orderId := order]
  }

  /** `getOrder`. */
  function Lookup(book: Book, orderId: string): (r: Option<Order>)
    ensures r.Some? <==> orderId in book
    ensures r.Some? ==> r.value == book[orderId]
  {
    if orderId in book then Some(book[orderId]) else None
  }

  /** The worker's first write, `setStatus(NEW)`; it does not look at the current status. */
  function Acknowledge(book: Book, orderId: string): (r: Book)
    ensures r.Keys == book.Keys
    ensures orderId in book ==>
              (r[orderId].status == New && SameTerms(r[orderId], book[orderId])
               && r[orderId].filledQty == book[orderId].filledQty)
    ensures OthersUnchanged(book, r, orderId)
    ensures BookOk(book) ==> BookOk(r)
  {
    if orderId in book then book[orderId := book[orderId].(status := New)] else book
  }

  /**
   * The worker's second write: FILLED with everything filled. It does not
   * look at the current status either, so a CANCELED order ends FILLED.
   */
  function Fill(book: Book, orderId: string): (r: Book)
    ensures r.Keys == book.Keys
    ensures orderId in book ==>
              (r[orderId].status == Filled && SameTerms(r[orderId], book[orderId])
               && r[orderId].filledQty == r[orderId].quantity)
    ensures OthersUnchanged(book, r, orderId)
    ensures BookOk(book) ==> BookOk(r)
  {
    if orderId in book then
      var o := book[orderId];
      book[orderId := o.(status := Filled, filledQty := o.quantity)]
    else book
  }

  /** `handleCancelRequest` cancels an order that exists and is not FILLED. */
  predicate Cancelable(book: Book, orderId: string) {
    orderId in book && !book[orderId].status.Filled?
  }

  /** The cancel handler's write, `setStatus(CANCELED)`. */
  function MarkCanceled(book: Book, orderId: string): (r: Book)
    requires orderId in book
    ensures r.Keys == book.Keys
    ensures r[orderId].status == Canceled && SameTerms(r[orderId], book[orderId])
      && r[orderId].filledQty == book[orderId].filledQty
    ensures OthersUnchanged(book, r, orderId)
    ensures BookOk(book) ==> BookOk(r)
  {
    book[orderId := book[orderId].(status := Canceled)]
  }

  /** Canceling is not final on the server: the worker's fill still lands afterwards. */
  lemma CanceledThenFilled(book: Book, orderId: string)
    requires Cancelable(book, orderId)
    ensures var after := Fill(MarkCanceled(book, orderId), orderId);
      after[orderId].status == Filled && after[orderId].filledQty == book[orderId].quantity
  {
  }
}
