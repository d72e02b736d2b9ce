/**
 * The store the storefront's handlers read and write: the product catalog and the
 * `cart`, `orders` and `order_items` tables, plus the auto-increment counters that
 * hand out new row ids. Prices are integer cents so that totals are exact.
 */
module Shop {
  import opened Wrappers
  import opened Seqs

  type UserId = nat
  type ProductId = nat
  type Cents = int

  /** A catalog entry as the cart and order pages read it. */
  datatype Product = Product(name: string, price: Cents, imageUrl: string)

  /** A row of `cart`. Nothing in the handlers keeps `quantity` positive. */
  datatype CartLine = CartLine(id: nat, userId: UserId, productId: ProductId, quantity: int)

  /** A row of `orders`; `totalAmount` is None when the order was summed over no rows (SQL NULL). */
  datatype Order = Order(id: nat, userId: UserId, totalAmount: Option<Cents>, status: string, createdAt: int)

  /** A row of `order_items`; `price` is the catalog price copied when the order was placed. */
  datatype OrderItem = OrderItem(orderId: nat, productId: ProductId, quantity: int, price: Cents)

  /** The whole persistent state; sequence order stands for the tables' row order. */
  datatype Store = Store(
    catalog: map<ProductId, Product>,
    cart: seq<CartLine>,
    orders: seq<Order>,
    items: seq<OrderItem>,
    nextCartId: nat,
    nextOrderId: nat)

  /** The status every new order is created with. */
  const Pending := "pending"

  /** The message of a JSON reply refused for want of a session. */
  const LoginFirst := "Please login first"

  const LoginPath := "/login"
  const CartPath := "/cart"

  /** A state-changing handler's outcome: the new store and the reply sent to the client. */
  datatype Step<R> = Step(store: Store, reply: R)

  /** A page handler's outcome: a redirect, a 404 with its text, or a rendered view. */
  datatype Page<T> = Redirect(location: string) | NotFound(message: string) | Render(content: T)

  predicate CartIdBefore(a: CartLine, b: CartLine) { a.id < b.id }

  /** Two lines never share a (user, product) key. */
  predicate DistinctKey(a: CartLine, b: CartLine) { a.userId != b.userId || a.productId != b.productId }

  predicate OrderIdBefore(a: Order, b: Order) { a.id < b.id }

  predicate NotLater(a: Order, b: Order) { a.createdAt <= b.createdAt }

  /** The condition `DELETE FROM cart WHERE user_id = ?` keeps a line under. */
  function NotOwnedBy(user: UserId): CartLine -> bool
  {
    (l: CartLine) => l.userId != user
  }

  function OrderIds(orders: seq<Order>): set<nat>
  {
    set o | o in orders :: o.id
  }

  /**
   * What the handlers keep true of the store when each runs as one atomic step:
   * row ids increase and stay below their counter, a user holds at most one cart
   * line per product, every order item belongs to an order, and orders are in
   * creation-time order.
   */
  predicate Valid(s: Store)
  {
    && Pairwise(s.cart, CartIdBefore)
    && (forall k :: 0 <= k < |s.cart| ==> s.cart[k].id < s.nextCartId)
    && Pairwise(s.cart, DistinctKey)
    && Pairwise(s.orders, OrderIdBefore)
    && (forall k :: 0 <= k < |s.orders| ==> s.orders[k].id < s.nextOrderId)
    && (forall k :: 0 <= k < |s.items| ==> s.items[k].orderId in OrderIds(s.orders))
    && Pairwise(s.orders, NotLater)
  }

  /** The database clock reads `now` no earlier than any stored order's creation time. */
  predicate ClockNotBefore(s: Store, now: int)
  {
    forall k :: 0 <= k < |s.orders| ==> s.orders[k].createdAt <= now
  }

  /** Every cart line holds a positive quantity. */
  predicate PositiveQuantities(cart: seq<CartLine>)
  {
    forall k :: 0 <= k < |cart| ==> cart[k].quantity > 0
  }
}
