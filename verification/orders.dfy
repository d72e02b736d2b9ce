/**
 * The order handlers: `/place-order` turns the user's joined cart into one pending
 * order and one order item per row, then empties the user's cart; `/orders` lists
 * the user's orders newest first with their item counts; `/order/:id` shows one
 * order to its owner only.
 */
module Orders {
  import opened Wrappers
  import opened Seqs
  import opened Shop
  import opened Pricing

  const OrderNotFound := "Order not found"

  /** The JSON reply of `/place-order`: `{ success: true, orderId }` or `{ success: false, message }`. */
  datatype OrderReply = Placed(orderId: nat) | Refused(message: string)

  /** The order items copied from the joined rows, each with the price the catalog had at that moment. */
  function Snapshot(orderId: nat, rows: seq<CartRow>): (items: seq<OrderItem>)
    ensures |items| == |rows|
  {
    seq(|rows|, k requires 0 <= k < |rows| =>
      OrderItem(orderId, rows[k].line.productId, rows[k].line.quantity, rows[k].product.price))
  }

  /** `SUM(p.price * c.quantity)`: NULL over no rows, otherwise the total. */
  function SumOrNull(rows: seq<CartRow>): Option<Cents>
  {
    if |rows| == 0 then None else Some(Total(rows))
  }

  /** Σ price × quantity over stored order items. */
  function ItemsTotal(items: seq<OrderItem>): int
  {
    if |items| == 0 then 0 else ItemsTotal(items[..|items| - 1]) + items[|items| - 1].price * items[|items| - 1].quantity
  }

  /** The items copied from the rows add up to the rows' total. */
  lemma {:induction false} SnapshotTotal(orderId: nat, rows: seq<CartRow>)
    ensures ItemsTotal(Snapshot(orderId, rows)) == Total(rows)
  {
    if |rows| > 0 {
      var n := |rows| - 1;
      assert Snapshot(orderId, rows)[..n] == Snapshot(orderId, rows[..n]);
      SnapshotTotal(orderId, rows[..n]);
    }
  }

  /**
   * `/place-order`: without a session, refuse and write nothing. Otherwise insert an
   * order with the next id, status pending, creation time `now` and the summed total
   * of the user's joined cart; insert one item per joined row; then delete every
   * cart line of the user, including lines whose product is no longer in the
   * catalog. An empty join is not refused.
   */
  function PlaceOrder(s: Store, session: Option<UserId>, now: int): (r: Step<OrderReply>)
    ensures session.None? ==> r == Step(s, Refused(LoginFirst))
    ensures session.Some? ==>
              var user := session.value;
              var rows := Joined(s.cart, s.catalog, user);
              && r.reply == Placed(s.nextOrderId)
              && |r.store.orders| == |s.orders| + 1
              && r.store.orders[..|s.orders|] == s.orders
              && r.store.orders[|s.orders|] == Order(s.nextOrderId, user, SumOrNull(rows), Pending, now)
              && |r.store.items| == |s.items| + |rows|
              && r.store.items[..|s.items|] == s.items
              && (forall k :: 0 <= k < |rows| ==>
                    r.store.items[|s.items| + k]
                    == OrderItem(s.nextOrderId, rows[k].line.productId, rows[k].line.quantity,
                                 s.catalog[rows[k].line.productId].price))
              && (forall l :: l in r.store.cart <==> l in s.cart && l.userId != user)
              && r.store.catalog == s.catalog
              && r.store.nextCartId == s.nextCartId
              && r.store.nextOrderId == s.nextOrderId + 1
  {
    match session
    case None => Step(s, Refused(LoginFirst))
    case Some(user) =>
      var rows := Joined(s.cart, s.catalog, user);
      var id := s.nextOrderId;
      var order := Order(id, user, SumOrNull(rows), Pending, now);
      var s' := Store(s.catalog, Filter(s.cart, NotOwnedBy(user)), s.orders + [order],
                      s.items + Snapshot(id, rows), s.nextCartId, id + 1);
      Step(s', Placed(id))
  }

  /**
   * Total consistency: an order placed from a non-empty join records as its total
   * the sum of price × quantity over its own items, which is also the total the cart
   * page showed just before.
   */
  lemma OrderTotalMatchesItems(s: Store, user: UserId, now: int)
    requires Joined(s.cart, s.catalog, user) != []
    ensures var r := PlaceOrder(s, Some(user), now).store;
            && r.orders[|s.orders|].totalAmount == Some(ItemsTotal(r.items[|s.items|..]))
            && r.orders[|s.orders|].totalAmount == Some(Total(Joined(s.cart, s.catalog, user)))
            && r.orders[|s.orders|].totalAmount == Some(CartSum(s.cart, s.catalog, user))
  {
    var rows := Joined(s.cart, s.catalog, user);
    var r := PlaceOrder(s, Some(user), now).store;
    assert r.items[|s.items|..] == Snapshot(s.nextOrderId, rows);
    SnapshotTotal(s.nextOrderId, rows);
    TotalIsCartSum(s.cart, s.catalog, user);
  }

  /**
   * After an order the user's cart is empty, and every other user's cart reads
   * exactly as before.
   */
  lemma CartEmptiedAfterOrder(s: Store, user: UserId, now: int, other: UserId)
    ensures var r := PlaceOrder(s, Some(user), now).store;
            && (forall l :: l in r.cart ==> l.userId != user)
            && Joined(r.cart, r.catalog, user) == []
            && (other != user ==> Joined(r.cart, r.catalog, other) == Joined(s.cart, s.catalog, other))
  {
    JoinedWithoutUser(s.cart, s.catalog, user, user);
    JoinedWithoutUser(s.cart, s.catalog, user, other);
  }

  /** The number of stored items of one order: the `item_count` subquery. */
  function CountItems(items: seq<OrderItem>, orderId: nat): nat
  {
    if |items| == 0 then 0
    else (if items[0].orderId == orderId then 1 else 0) + CountItems(items[1..], orderId)
  }

  lemma {:induction false} CountItemsAppend(a: seq<OrderItem>, b: seq<OrderItem>, orderId: nat)
    ensures CountItems(a + b, orderId) == CountItems(a, orderId) + CountItems(b, orderId)
  {
    if |a| == 0 {
      assert a + b == b;
    } else {
      assert (a + b)[1..] == a[1..] + b;
      CountItemsAppend(a[1..], b, orderId);
    }
  }

  lemma {:induction false} CountItemsOfOneOrder(items: seq<OrderItem>, orderId: nat)
    requires forall k :: 0 <= k < |items| ==> items[k].orderId == orderId
    ensures CountItems(items, orderId) == |items|
  {
    if |items| > 0 {
      CountItemsOfOneOrder(items[1..], orderId);
    }
  }

  lemma {:induction false} CountItemsOfNoOrder(items: seq<OrderItem>, orderId: nat)
    requires forall k :: 0 <= k < |items| ==> items[k].orderId != orderId
    ensures CountItems(items, orderId) == 0
  {
    if |items| > 0 {
      CountItemsOfNoOrder(items[1..], orderId);
    }
  }

  /** A row of the `/orders` page: an order and how many items it has. */
  datatype OrderSummary = OrderSummary(order: Order, itemCount: nat)

  /** The user's orders, last inserted first, each with its item count. */
  function NewestFirst(orders: seq<Order>, items: seq<OrderItem>, user: UserId): (r: seq<OrderSummary>)
    ensures forall k :: 0 <= k < |r| ==>
              r[k].order in orders && r[k].order.userId == user && r[k].itemCount == CountItems(items, r[k].order.id)
    ensures forall o :: o in orders && o.userId == user ==> OrderSummary(o, CountItems(items, o.id)) in r
    decreases |orders|
  {
    if |orders| == 0 then []
    else
      var n := |orders| - 1;
      var rest := NewestFirst(orders[..n], items, user);
      var head := Summary(orders[n], items, user);
      InPrefixOrLast(orders, rest);
      head + rest
  }

  /** The listing row of one order: none when it belongs to another user. */
  function Summary(o: Order, items: seq<OrderItem>, user: UserId): seq<OrderSummary>
  {
    if o.userId == user then [OrderSummary(o, CountItems(items, o.id))] else []
  }

  /** Every order is the last one or one before it. */
  lemma InPrefixOrLast(orders: seq<Order>, rest: seq<OrderSummary>)
    requires |orders| > 0
    requires forall k :: 0 <= k < |rest| ==> rest[k].order in orders[..|orders| - 1]
    ensures forall k :: 0 <= k < |rest| ==> rest[k].order in orders
    ensures forall o :: o in orders ==> o in orders[..|orders| - 1] || o == orders[|orders| - 1]
  {
    assert orders == orders[..|orders| - 1] + [orders[|orders| - 1]];
  }

  /** Each listed order was created no earlier than every order listed after it. */
  predicate LatestFirst(r: seq<OrderSummary>)
  {
    forall i, j :: 0 <= i < j < |r| ==> r[i].order.createdAt >= r[j].order.createdAt
  }

  /** Putting at most one order, no earlier than all the others, in front keeps the listing latest first. */
  lemma PrependLatest(head: seq<OrderSummary>, rest: seq<OrderSummary>, t: int)
    requires |head| <= 1 && forall i :: 0 <= i < |head| ==> head[i].order.createdAt == t
    requires LatestFirst(rest) && forall k :: 0 <= k < |rest| ==> rest[k].order.createdAt <= t
    ensures LatestFirst(head + rest)
  {
    var r := head + rest;
    forall i, j | 0 <= i < j < |r|
      ensures r[i].order.createdAt >= r[j].order.createdAt
    {
      if i >= |head| {
        assert r[i] == rest[i - |head|] && r[j] == rest[j - |head|];
      } else {
        assert r[i] == head[i] && r[j] == rest[j - |head|];
      }
    }
  }

  /** In creation-time order, every order taken from before the last one is no later than it. */
  lemma EarlierBound(orders: seq<Order>, rest: seq<OrderSummary>)
    requires |orders| > 0 && Pairwise(orders, NotLater)
    requires forall k :: 0 <= k < |rest| ==> rest[k].order in orders[..|orders| - 1]
    ensures forall k :: 0 <= k < |rest| ==> rest[k].order.createdAt <= orders[|orders| - 1].createdAt
  {
    var n := |orders| - 1;
    forall k | 0 <= k < |rest|
      ensures rest[k].order.createdAt <= orders[n].createdAt
    {
      assert rest[k].order in orders[..n];
      var m :| 0 <= m < n && orders[..n][m] == rest[k].order;
      assert NotLater(orders[m], orders[n]);
    }
  }

  /** With orders in creation-time order, the listing runs from the latest to the earliest. */
  lemma {:induction false} NewestFirstSorted(orders: seq<Order>, items: seq<OrderItem>, user: UserId)
    requires Pairwise(orders, NotLater)
    ensures LatestFirst(NewestFirst(orders, items, user))
    decreases |orders|
  {
    if |orders| > 0 {
      var n := |orders| - 1;
      var rest := NewestFirst(orders[..n], items, user);
      var head := Summary(orders[n], items, user);
      assert Pairwise(orders[..n], NotLater) by {
        PairwisePrefix(orders, n, NotLater);
      }
      NewestFirstSorted(orders[..n], items, user);
      EarlierBound(orders, rest);
      PrependLatest(head, rest, orders[n].createdAt);
      assert NewestFirst(orders, items, user) == head + rest;
    }
  }

  /** A newly inserted order heads the listing when it is the user's. */
  lemma NewestFirstAppend(orders: seq<Order>, o: Order, items: seq<OrderItem>, user: UserId)
    ensures NewestFirst(orders + [o], items, user) == Summary(o, items, user) + NewestFirst(orders, items, user)
  {
    assert (orders + [o])[..|orders|] == orders;
  }

  /** The `WHERE o.user_id = ?` condition of the orders page, as a test on one order. */
  function PlacedBy(user: UserId): Order -> bool
  {
    (o: Order) => o.userId == user
  }

  /** The listing has one entry per order of the user: as many as the user's orders. */
  lemma {:induction false} NewestFirstCount(orders: seq<Order>, items: seq<OrderItem>, user: UserId)
    ensures |NewestFirst(orders, items, user)| == |Filter(orders, PlacedBy(user))|
    decreases |orders|
  {
    if |orders| > 0 {
      var n := |orders| - 1;
      var o := orders[n];
      NewestFirstCount(orders[..n], items, user);
      assert orders == orders[..n] + [o];
      FilterAppend(orders[..n], [o], PlacedBy(user));
      assert [o][1..] == [];
      assert |Filter([o], PlacedBy(user))| == |Summary(o, items, user)|;
      assert NewestFirst(orders, items, user) == Summary(o, items, user) + NewestFirst(orders[..n], items, user);
    }
  }

  /** `/orders`: redirect to the login page without a session, else the caller's orders only, newest first. */
  function OrdersPage(s: Store, session: Option<UserId>): (r: Page<seq<OrderSummary>>)
    ensures session.None? ==> r == Redirect(LoginPath)
    ensures session.Some? ==> r.Render?
    ensures session.Some? ==> forall k :: 0 <= k < |r.content| ==>
              r.content[k].order in s.orders && r.content[k].order.userId == session.value
              && r.content[k].itemCount == CountItems(s.items, r.content[k].order.id)
    ensures session.Some? ==> forall o :: o in s.orders && o.userId == session.value ==>
              OrderSummary(o, CountItems(s.items, o.id)) in r.content
    ensures session.Some? ==> |r.content| == |Filter(s.orders, PlacedBy(session.value))|
  {
    match session
    case None => Redirect(LoginPath)
    case Some(user) =>
      NewestFirstCount(s.orders, s.items, user);
      Render(NewestFirst(s.orders, s.items, user))
  }

  /** In a valid store the `/orders` page runs from the most recently created order to the earliest. */
  lemma OrdersPageNewestFirst(s: Store, user: UserId)
    requires Valid(s)
    ensures var page := OrdersPage(s, Some(user));
            forall i, j :: 0 <= i < j < |page.content| ==> page.content[i].order.createdAt >= page.content[j].order.createdAt
  {
    NewestFirstSorted(s.orders, s.items, user);
  }

  /** A row of the order page: a stored item with its product's current name and image. */
  datatype ItemRow = ItemRow(item: OrderItem, name: string, imageUrl: string)

  /** What the order page renders: the order's header and its item rows. */
  datatype OrderDetail = OrderDetail(order: Order, rows: seq<ItemRow>)

  predicate OwnsOrder(orders: seq<Order>, orderId: nat, user: UserId)
  {
    exists k :: 0 <= k < |orders| && orders[k].id == orderId && orders[k].userId == user
  }

  /** The first order with this id that belongs to `user`. */
  function FindOrder(orders: seq<Order>, orderId: nat, user: UserId): (r: Option<Order>)
    ensures r.Some? ==> r.value in orders && r.value.id == orderId && r.value.userId == user
    ensures r.None? <==> !OwnsOrder(orders, orderId, user)
  {
    if |orders| == 0 then None
    else if orders[0].id == orderId && orders[0].userId == user then Some(orders[0])
    else
      var r := FindOrder(orders[1..], orderId, user);
      assert OwnsOrder(orders, orderId, user) ==> OwnsOrder(orders[1..], orderId, user) by {
        if OwnsOrder(orders, orderId, user) {
          var k :| 0 <= k < |orders| && orders[k].id == orderId && orders[k].userId == user;
          assert orders[1..][k - 1] == orders[k];
        }
      }
      r
  }

  predicate Visible(i: OrderItem, catalog: map<ProductId, Product>, orderId: nat)
  {
    i.orderId == orderId && i.productId in catalog
  }

  /** `order_items JOIN products` for one order: its items whose product still exists, with name and image. */
  function DetailRows(items: seq<OrderItem>, catalog: map<ProductId, Product>, orderId: nat): (r: seq<ItemRow>)
    ensures forall k :: 0 <= k < |r| ==>
              && r[k].item in items && Visible(r[k].item, catalog, orderId)
              && r[k].name == catalog[r[k].item.productId].name
              && r[k].imageUrl == catalog[r[k].item.productId].imageUrl
    ensures |r| == 0 <==> forall k :: 0 <= k < |items| ==> !Visible(items[k], catalog, orderId)
  {
    if |items| == 0 then []
    else
      var rest := DetailRows(items[1..], catalog, orderId);
      assert forall k :: 1 <= k < |items| ==> items[k] == items[1..][k - 1];
      DetailRow(items[0], catalog, orderId) + rest
  }

  /** The page row of one item: none when it belongs to another order or its product is gone. */
  function DetailRow(i: OrderItem, catalog: map<ProductId, Product>, orderId: nat): seq<ItemRow>
  {
    if Visible(i, catalog, orderId) then [ItemRow(i, catalog[i.productId].name, catalog[i.productId].imageUrl)] else []
  }

  /** The join condition of the order page's item query, as a test on one item. */
  function VisibleFor(catalog: map<ProductId, Product>, orderId: nat): OrderItem -> bool
  {
    (i: OrderItem) => Visible(i, catalog, orderId)
  }

  /** Items whose product is in the catalog, each with its product's current name and image. */
  function ItemRowsOf(items: seq<OrderItem>, catalog: map<ProductId, Product>): seq<ItemRow>
    requires forall k :: 0 <= k < |items| ==> items[k].productId in catalog
  {
    seq(|items|, k requires 0 <= k < |items| =>
      ItemRow(items[k], catalog[items[k].productId].name, catalog[items[k].productId].imageUrl))
  }

  lemma ItemRowsOfAppend(a: seq<OrderItem>, b: seq<OrderItem>, catalog: map<ProductId, Product>)
    requires forall k :: 0 <= k < |a| ==> a[k].productId in catalog
    requires forall k :: 0 <= k < |b| ==> b[k].productId in catalog
    ensures forall k :: 0 <= k < |a + b| ==> (a + b)[k].productId in catalog
    ensures ItemRowsOf(a + b, catalog) == ItemRowsOf(a, catalog) + ItemRowsOf(b, catalog)
  {
    assert forall k :: 0 <= k < |a + b| ==> (a + b)[k] == if k < |a| then a[k] else b[k - |a|];
  }

  /**
   * The order page's rows are exactly the order's items whose product still exists,
   * each once and in stored order, with the product's current name and image.
   */
  lemma {:induction false} DetailRowsIsFilter(items: seq<OrderItem>, catalog: map<ProductId, Product>, orderId: nat)
    ensures var kept := Filter(items, VisibleFor(catalog, orderId));
            && (forall k :: 0 <= k < |kept| ==> kept[k].productId in catalog)
            && DetailRows(items, catalog, orderId) == ItemRowsOf(kept, catalog)
  {
    var keep := VisibleFor(catalog, orderId);
    var kept := Filter(items, keep);
    assert forall k :: 0 <= k < |kept| ==> keep(kept[k]);
    if |items| > 0 {
      var tail := Filter(items[1..], keep);
      var h := if keep(items[0]) then [items[0]] else [];
      assert kept == h + tail;
      assert (forall k :: 0 <= k < |tail| ==> tail[k].productId in catalog)
             && DetailRows(items[1..], catalog, orderId) == ItemRowsOf(tail, catalog) by {
        DetailRowsIsFilter(items[1..], catalog, orderId);
      }
      assert ItemRowsOf(h, catalog) == DetailRow(items[0], catalog, orderId);
      ItemRowsOfAppend(h, tail, catalog);
    }
  }

  /**
   * `/order/:id`: redirect to the login page without a session; otherwise the order
   * is shown only when it belongs to the caller and has at least one item whose
   * product still exists. Every other case, including another user's order, is the
   * same "Order not found".
   */
  function OrderPage(s: Store, session: Option<UserId>, orderId: nat): (r: Page<OrderDetail>)
    ensures session.None? ==> r == Redirect(LoginPath)
    ensures session.Some? ==>
              (r.Render? <==> OwnsOrder(s.orders, orderId, session.value)
                              && exists k :: 0 <= k < |s.items| && Visible(s.items[k], s.catalog, orderId))
    ensures session.Some? && !r.Render? ==> r == NotFound(OrderNotFound)
    ensures r.Render? ==>
              && r.content.order in s.orders
              && r.content.order.id == orderId
              && r.content.order.userId == session.value
              && (forall k :: 0 <= k < |r.content.rows| ==>
                   r.content.rows[k].item in s.items && Visible(r.content.rows[k].item, s.catalog, orderId))
    ensures r.Render? ==>
              var kept := Filter(s.items, VisibleFor(s.catalog, orderId));
              && (forall k :: 0 <= k < |kept| ==> kept[k].productId in s.catalog)
              && r.content.rows == ItemRowsOf(kept, s.catalog)
  {
    match session
    case None => Redirect(LoginPath)
    case Some(user) =>
      match FindOrder(s.orders, orderId, user)
      case None => NotFound(OrderNotFound)
      case Some(order) =>
        var rows := DetailRows(s.items, s.catalog, orderId);
        DetailRowsIsFilter(s.items, s.catalog, orderId);
        if |rows| == 0 then NotFound(OrderNotFound) else Render(OrderDetail(order, rows))
  }

  /** In a valid store, an order that exists but belongs to someone else reads as not found. */
  lemma OtherUsersOrderNotFound(s: Store, user: UserId, k: nat)
    requires Valid(s)
    requires k < |s.orders| && s.orders[k].userId != user
    ensures OrderPage(s, Some(user), s.orders[k].id) == NotFound(OrderNotFound)
  {
    var id := s.orders[k].id;
    forall j | 0 <= j < |s.orders|
      ensures !(s.orders[j].id == id && s.orders[j].userId == user)
    {
      if j < k {
        assert OrderIdBefore(s.orders[j], s.orders[k]);
      } else if j > k {
        assert OrderIdBefore(s.orders[k], s.orders[j]);
      }
    }
  }

  lemma {:induction false} FindOrderAppend(orders: seq<Order>, o: Order, user: UserId)
    requires o.userId == user && !OwnsOrder(orders, o.id, user)
    ensures FindOrder(orders + [o], o.id, user) == Some(o)
  {
    if |orders| == 0 {
      assert orders + [o] == [o];
    } else {
      assert (orders + [o])[1..] == orders[1..] + [o];
      assert !OwnsOrder(orders[1..], o.id, user) by {
        forall j | 0 <= j < |orders[1..]|
          ensures !(orders[1..][j].id == o.id && orders[1..][j].userId == user)
        {
          assert orders[1..][j] == orders[j + 1];
        }
      }
      FindOrderAppend(orders[1..], o, user);
    }
  }

  lemma {:induction false} DetailRowsAppend(a: seq<OrderItem>, b: seq<OrderItem>, catalog: map<ProductId, Product>, orderId: nat)
    ensures DetailRows(a + b, catalog, orderId) == DetailRows(a, catalog, orderId) + DetailRows(b, catalog, orderId)
  {
    if |a| == 0 {
      assert a + b == b;
    } else {
      assert (a + b)[0] == a[0] && (a + b)[1..] == a[1..] + b;
      DetailRowsAppend(a[1..], b, catalog, orderId);
    }
  }

  /** When every item is visible, the order page lists each of them, in order. */
  lemma {:induction false} DetailRowsAllVisible(items: seq<OrderItem>, catalog: map<ProductId, Product>, orderId: nat)
    requires forall k :: 0 <= k < |items| ==> Visible(items[k], catalog, orderId)
    ensures |DetailRows(items, catalog, orderId)| == |items|
    ensures forall k :: 0 <= k < |items| ==> DetailRows(items, catalog, orderId)[k].item == items[k]
  {
    if |items| > 0 {
      DetailRowsAllVisible(items[1..], catalog, orderId);
    }
  }

  /** In a valid store no order or item carries the next order id yet. */
  lemma NextOrderIdUnused(s: Store, user: UserId)
    requires Valid(s)
    ensures !OwnsOrder(s.orders, s.nextOrderId, user)
    ensures forall k :: 0 <= k < |s.items| ==> s.items[k].orderId != s.nextOrderId
  {
    forall k | 0 <= k < |s.items|
      ensures s.items[k].orderId != s.nextOrderId
    {
      var id := s.items[k].orderId;
      assert id in OrderIds(s.orders);
      var o :| o in s.orders && o.id == id;
    }
  }

  /** The parts of `PlaceOrder`'s result the order page reads, for a user with a session. */
  lemma PlaceOrderParts(s: Store, user: UserId, now: int)
    ensures var r := PlaceOrder(s, Some(user), now);
            var rows := Joined(s.cart, s.catalog, user);
            && r.reply == Placed(s.nextOrderId)
            && r.store.orders == s.orders + [Order(s.nextOrderId, user, SumOrNull(rows), Pending, now)]
            && r.store.items == s.items + Snapshot(s.nextOrderId, rows)
            && r.store.catalog == s.catalog
  {
  }

  /** Every item copied from the join names a product of the catalog. */
  lemma SnapshotVisible(s: Store, user: UserId, catalog: map<ProductId, Product>)
    requires catalog.Keys == s.catalog.Keys
    ensures var snap := Snapshot(s.nextOrderId, Joined(s.cart, s.catalog, user));
            forall k :: 0 <= k < |snap| ==> Visible(snap[k], catalog, s.nextOrderId)
  {
    var rows := Joined(s.cart, s.catalog, user);
    var snap := Snapshot(s.nextOrderId, rows);
    forall k | 0 <= k < |snap|
      ensures Visible(snap[k], catalog, s.nextOrderId)
    {
      assert Joins(rows[k].line, s.catalog, user);
    }
  }

  /** Each copied item carries its line's product and quantity and the catalog's price for that product. */
  lemma SnapshotCopiesCatalog(s: Store, user: UserId)
    ensures var rows := Joined(s.cart, s.catalog, user);
            var snap := Snapshot(s.nextOrderId, rows);
            forall k :: 0 <= k < |rows| ==>
              && snap[k].productId == rows[k].line.productId
              && snap[k].quantity == rows[k].line.quantity
              && snap[k].price == s.catalog[rows[k].line.productId].price
  {
    var rows := Joined(s.cart, s.catalog, user);
    forall k | 0 <= k < |rows|
      ensures rows[k].line.productId in s.catalog && rows[k].product == s.catalog[rows[k].line.productId]
    {
    }
  }

  /** The order page of a freshly numbered order made of the given items. */
  lemma {:induction false} FreshOrderPage(orders: seq<Order>, o: Order, items: seq<OrderItem>, snap: seq<OrderItem>,
                                          catalog: map<ProductId, Product>)
    requires !OwnsOrder(orders, o.id, o.userId)
    requires forall k :: 0 <= k < |items| ==> items[k].orderId != o.id
    requires forall k :: 0 <= k < |snap| ==> Visible(snap[k], catalog, o.id)
    ensures FindOrder(orders + [o], o.id, o.userId) == Some(o)
    ensures DetailRows(items + snap, catalog, o.id) == DetailRows(snap, catalog, o.id)
    ensures |DetailRows(snap, catalog, o.id)| == |snap|
    ensures forall k :: 0 <= k < |snap| ==> DetailRows(snap, catalog, o.id)[k].item == snap[k]
  {
    FindOrderAppend(orders, o, o.userId);
    DetailRowsAppend(items, snap, catalog, o.id);
    assert DetailRows(items, catalog, o.id) == [];
    DetailRowsAllVisible(snap, catalog, o.id);
  }

  /**
   * The order page of an order appended under a fresh id together with its items,
   * every one of which names a product of the catalog: it shows that order with
   * exactly those items, in order.
   */
  lemma FreshOrderShown(st: Store, orders: seq<Order>, o: Order, items: seq<OrderItem>, snap: seq<OrderItem>)
    requires st.orders == orders + [o] && st.items == items + snap
    requires !OwnsOrder(orders, o.id, o.userId)
    requires forall k :: 0 <= k < |items| ==> items[k].orderId != o.id
    requires forall k :: 0 <= k < |snap| ==> Visible(snap[k], st.catalog, o.id)
    requires |snap| > 0
    ensures var page := OrderPage(st, Some(o.userId), o.id);
            && page.Render?
            && page.content.order == o
            && |page.content.rows| == |snap|
            && forall k :: 0 <= k < |snap| ==> page.content.rows[k].item == snap[k]
  {
    FreshOrderPage(orders, o, items, snap, st.catalog);
  }

  /** `PlaceOrder` for a user with a session, spelled out as the store it builds. */
  lemma PlaceOrderResult(s: Store, user: UserId, now: int)
    ensures var rows := Joined(s.cart, s.catalog, user);
            var o := Order(s.nextOrderId, user, SumOrNull(rows), Pending, now);
            PlaceOrder(s, Some(user), now)
            == Step(Store(s.catalog, Filter(s.cart, NotOwnedBy(user)), s.orders + [o],
                          s.items + Snapshot(s.nextOrderId, rows), s.nextCartId, s.nextOrderId + 1),
                    Placed(s.nextOrderId))
  {
  }

  /**
   * The round trip the client relies on when it follows `/order/<orderId>`: an order
   * placed from a non-empty join is shown to its owner with the order just created
   * and exactly the items just copied from the cart, in cart order.
   */
  lemma PlacedOrderIsShown(s: Store, user: UserId, now: int)
    requires Valid(s)
    requires Joined(s.cart, s.catalog, user) != []
    ensures var r := PlaceOrder(s, Some(user), now);
            var page := OrderPage(r.store, Some(user), r.reply.orderId);
            && page.Render?
            && page.content.order == r.store.orders[|s.orders|]
            && |page.content.rows| == |Joined(s.cart, s.catalog, user)|
            && forall k :: 0 <= k < |page.content.rows| ==> page.content.rows[k].item == r.store.items[|s.items| + k]
  {
    var rows := Joined(s.cart, s.catalog, user);
    var o := Order(s.nextOrderId, user, SumOrNull(rows), Pending, now);
    var snap := Snapshot(s.nextOrderId, rows);
    PlaceOrderResult(s, user, now);
    var st := PlaceOrder(s, Some(user), now).store;
    NextOrderIdUnused(s, user);
    SnapshotVisible(s, user, s.catalog);
    FreshOrderShown(st, s.orders, o, s.items, snap);
  }

  /**
   * Price snapshotting: once an order is placed, re-pricing or renaming products
   * (without removing any) leaves the order page showing the same order header and
   * items carrying the prices the catalog had when the order was placed.
   */
  lemma PriceSnapshotSurvivesRepricing(s: Store, user: UserId, now: int, catalog: map<ProductId, Product>)
    requires Valid(s)
    requires Joined(s.cart, s.catalog, user) != []
    requires catalog.Keys == s.catalog.Keys
    ensures var rows := Joined(s.cart, s.catalog, user);
            var r := PlaceOrder(s, Some(user), now);
            var page := OrderPage(r.store.(catalog := catalog), Some(user), r.reply.orderId);
            && page.Render?
            && page.content.order.totalAmount == Some(Total(rows))
            && |page.content.rows| == |rows|
            && forall k :: 0 <= k < |rows| ==>
                 page.content.rows[k].item.price == s.catalog[rows[k].line.productId].price
                 && page.content.rows[k].item.quantity == rows[k].line.quantity
  {
    var rows := Joined(s.cart, s.catalog, user);
    var id := s.nextOrderId;
    var o := Order(id, user, SumOrNull(rows), Pending, now);
    var snap := Snapshot(id, rows);
    var r := PlaceOrder(s, Some(user), now);
    var st := r.store.(catalog := catalog);
    assert r.reply.orderId == id && st.orders == s.orders + [o] && st.items == s.items + snap && st.catalog == catalog by {
      PlaceOrderResult(s, user, now);
    }
    assert !OwnsOrder(s.orders, id, user) && forall k :: 0 <= k < |s.items| ==> s.items[k].orderId != id by {
      NextOrderIdUnused(s, user);
    }
    assert forall k :: 0 <= k < |snap| ==> Visible(snap[k], catalog, id) by {
      SnapshotVisible(s, user, catalog);
    }
    assert forall k :: 0 <= k < |rows| ==>
             snap[k].quantity == rows[k].line.quantity && snap[k].price == s.catalog[rows[k].line.productId].price by {
      SnapshotCopiesCatalog(s, user);
    }
    FreshOrderShown(st, s.orders, o, s.items, snap);
    var page := OrderPage(st, Some(user), id);
    assert page == OrderPage(r.store.(catalog := catalog), Some(user), r.reply.orderId);
    assert page.content.order.totalAmount == Some(Total(rows));
    forall k | 0 <= k < |rows|
      ensures page.content.rows[k].item.price == s.catalog[rows[k].line.productId].price
      ensures page.content.rows[k].item.quantity == rows[k].line.quantity
    {
      assert page.content.rows[k].item == snap[k];
    }
  }

  /** An order of the user's appended after all others heads the user's order list. */
  lemma AppendedOrderListedFirst(st: Store, orders: seq<Order>, o: Order, user: UserId)
    requires st.orders == orders + [o] && o.userId == user
    ensures var page := OrdersPage(st, Some(user));
            && page.Render? && |page.content| > 0
            && page.content[0] == OrderSummary(o, CountItems(st.items, o.id))
  {
    var nf := NewestFirst(st.orders, st.items, user);
    assert |nf| > 0 && nf[0] == OrderSummary(o, CountItems(st.items, o.id)) by {
      NewestFirstAppend(orders, o, st.items, user);
    }
    assert OrdersPage(st, Some(user)) == Render(nf);
  }

  /** The order just placed counts one item per joined row. */
  lemma PlacedOrderItemCount(s: Store, user: UserId, now: int)
    requires Valid(s)
    ensures CountItems(PlaceOrder(s, Some(user), now).store.items, s.nextOrderId) == |Joined(s.cart, s.catalog, user)|
  {
    var rows := Joined(s.cart, s.catalog, user);
    var id := s.nextOrderId;
    var snap := Snapshot(id, rows);
    assert PlaceOrder(s, Some(user), now).store.items == s.items + snap by {
      PlaceOrderParts(s, user, now);
    }
    NextOrderIdUnused(s, user);
    CountItemsAppend(s.items, snap, id);
    CountItemsOfNoOrder(s.items, id);
    CountItemsOfOneOrder(snap, id);
  }

  /**
   * With a clock that has not gone back, the order just placed heads its owner's
   * order list, with one item per joined row.
   */
  lemma PlacedOrderListedFirst(s: Store, user: UserId, now: int)
    requires Valid(s) && ClockNotBefore(s, now)
    ensures var r := PlaceOrder(s, Some(user), now).store;
            var page := OrdersPage(r, Some(user));
            && page.Render? && |page.content| > 0
            && page.content[0] == OrderSummary(r.orders[|s.orders|], |Joined(s.cart, s.catalog, user)|)
  {
    var r := PlaceOrder(s, Some(user), now).store;
    PlacedOrderItemCount(s, user, now);
    AppendedOrderListedFirst(r, s.orders, r.orders[|s.orders|], user);
  }

  /**
   * As written, an empty join is not refused: the user still gets an order, with a
   * NULL total and no items, their remaining cart lines are deleted, and the order
   * page the client is sent to then reports that very order as not found.
   */
  lemma EmptyCartOrderIsHidden(s: Store, user: UserId, now: int)
    requires Valid(s)
    requires Joined(s.cart, s.catalog, user) == []
    ensures var r := PlaceOrder(s, Some(user), now);
            && r.reply == Placed(s.nextOrderId)
            && |r.store.orders| == |s.orders| + 1
            && r.store.orders[|s.orders|].totalAmount == None
            && r.store.items == s.items
            && OrderPage(r.store, Some(user), r.reply.orderId) == NotFound(OrderNotFound)
  {
    var r := PlaceOrder(s, Some(user), now);
    NextOrderIdUnused(s, user);
    assert r.store.items == s.items;
  }

  /** The reply the corrected checkout gives for an empty join; the handler has no wording of its own for it. */
  const EmptyCartMessage := "Your cart is empty"

  /**
   * `/place-order` with the empty-cart guard the checkout page already applies: an
   * empty join is refused and nothing is written; otherwise it is `PlaceOrder`.
   */
  function PlaceOrderGuarded(s: Store, session: Option<UserId>, now: int): (r: Step<OrderReply>)
    ensures session.Some? && Joined(s.cart, s.catalog, session.value) == [] ==>
              r == Step(s, Refused(EmptyCartMessage))
    ensures session.None? || Joined(s.cart, s.catalog, session.value) != [] ==>
              r == PlaceOrder(s, session, now)
  {
    if session.Some? && Joined(s.cart, s.catalog, session.value) == [] then Step(s, Refused(EmptyCartMessage))
    else PlaceOrder(s, session, now)
  }

  /** With the guard, every order placed has at least one item and is shown to its owner. */
  lemma GuardedOrderIsShown(s: Store, session: Option<UserId>, now: int)
    requires Valid(s)
    ensures var r := PlaceOrderGuarded(s, session, now);
            r.reply.Placed? ==>
              && session.Some?
              && |r.store.items| > |s.items|
              && r.store.orders[|s.orders|].totalAmount.Some?
              && OrderPage(r.store, session, r.reply.orderId).Render?
  {
    var r := PlaceOrderGuarded(s, session, now);
    if r.reply.Placed? {
      PlacedOrderIsShown(s, session.value, now);
    }
  }
}
