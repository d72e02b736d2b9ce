/**
 * The store invariant `Valid` is kept by every state-changing handler when each runs
 * as one atomic step, and which handlers keep every cart quantity positive.
 */
module Invariants {
  import opened Wrappers
  import opened Seqs
  import opened Shop
  import opened Pricing
  import opened Cart
  import opened Orders

  /** Lines that agree index by index on id, user and product satisfy the same key relations. */
  lemma SameKeysPairwise(a: seq<CartLine>, b: seq<CartLine>)
    requires |a| == |b|
    requires forall k :: 0 <= k < |a| ==> a[k].id == b[k].id && a[k].userId == b[k].userId && a[k].productId == b[k].productId
    requires Pairwise(a, CartIdBefore) && Pairwise(a, DistinctKey)
    ensures Pairwise(b, CartIdBefore) && Pairwise(b, DistinctKey)
  {
    forall i, j | 0 <= i < j < |b|
      ensures CartIdBefore(b[i], b[j]) && DistinctKey(b[i], b[j])
    {
      assert CartIdBefore(a[i], a[j]) && DistinctKey(a[i], a[j]);
    }
  }

  /** Adding to the cart keeps the store valid: ids stay fresh and each (user, product) key has one line. */
  lemma AddPreservesValid(s: Store, session: Option<UserId>, product: ProductId, quantity: int)
    requires Valid(s)
    ensures Valid(AddToCart(s, session, product, quantity).store)
  {
    var r := AddToCart(s, session, product, quantity).store;
    if session.Some? {
      var user := session.value;
      match FindLine(s.cart, user, product)
      case Some(k) =>
        SameKeysPairwise(s.cart, r.cart);
      case None =>
        var line := CartLine(s.nextCartId, user, product, quantity);
        assert r.cart == s.cart + [line];
        forall i, j | 0 <= i < j < |r.cart|
          ensures CartIdBefore(r.cart[i], r.cart[j]) && DistinctKey(r.cart[i], r.cart[j])
        {
          if j < |s.cart| {
            assert CartIdBefore(s.cart[i], s.cart[j]) && DistinctKey(s.cart[i], s.cart[j]);
          } else {
            assert r.cart[i] == s.cart[i] && !IsLine(s.cart[i], user, product);
          }
        }
    }
  }

  /** Updating or deleting a line keeps the store valid. */
  lemma UpdatePreservesValid(s: Store, itemId: nat, quantity: int)
    requires Valid(s)
    ensures Valid(UpdateCart(s, itemId, quantity).store)
  {
    var r := UpdateCart(s, itemId, quantity).store;
    if quantity <= 0 {
      FilterPairwise(s.cart, OtherId(itemId), CartIdBefore);
      FilterPairwise(s.cart, OtherId(itemId), DistinctKey);
    } else {
      SameKeysPairwise(s.cart, r.cart);
    }
  }

  /** The orders after appending one with a larger id and no earlier creation time stay in order. */
  lemma AppendOrderPairwise(orders: seq<Order>, o: Order)
    requires Pairwise(orders, OrderIdBefore) && Pairwise(orders, NotLater)
    requires forall k :: 0 <= k < |orders| ==> orders[k].id < o.id && orders[k].createdAt <= o.createdAt
    ensures Pairwise(orders + [o], OrderIdBefore) && Pairwise(orders + [o], NotLater)
  {
    var r := orders + [o];
    forall i, j | 0 <= i < j < |r|
      ensures OrderIdBefore(r[i], r[j]) && NotLater(r[i], r[j])
    {
      if j < |orders| {
        assert OrderIdBefore(orders[i], orders[j]) && NotLater(orders[i], orders[j]);
      }
    }
  }

  /** Items appended for a new order, next to items of existing orders, all belong to a stored order. */
  lemma AppendedItemsOwned(orders: seq<Order>, o: Order, items: seq<OrderItem>, added: seq<OrderItem>)
    requires forall k :: 0 <= k < |items| ==> items[k].orderId in OrderIds(orders)
    requires forall k :: 0 <= k < |added| ==> added[k].orderId == o.id
    ensures forall k :: 0 <= k < |items + added| ==> (items + added)[k].orderId in OrderIds(orders + [o])
  {
    assert OrderIds(orders + [o]) == OrderIds(orders) + {o.id};
    var all := items + added;
    forall k | 0 <= k < |all|
      ensures all[k].orderId in OrderIds(orders + [o])
    {
      if k < |items| {
        assert all[k] == items[k];
      } else {
        assert all[k] == added[k - |items|];
      }
    }
  }

  /** Every order id stays below the counter once a new order takes the counter's value and the counter moves on. */
  lemma AppendedOrderIdsBelow(orders: seq<Order>, o: Order, next: nat)
    requires forall k :: 0 <= k < |orders| ==> orders[k].id < next
    requires o.id == next
    ensures forall k :: 0 <= k < |orders + [o]| ==> (orders + [o])[k].id < next + 1
  {
    forall k | 0 <= k < |orders + [o]|
      ensures (orders + [o])[k].id < next + 1
    {
      if k < |orders| {
        assert (orders + [o])[k] == orders[k];
      }
    }
  }

  /**
   * Placing an order keeps the store valid, provided the clock has not gone back:
   * the new order's id is fresh, its items belong to it, and the orders stay in
   * creation-time order.
   */
  lemma PlaceOrderPreservesValid(s: Store, session: Option<UserId>, now: int)
    requires Valid(s) && ClockNotBefore(s, now)
    ensures Valid(PlaceOrder(s, session, now).store)
  {
    if session.Some? {
      var user := session.value;
      var rows := Joined(s.cart, s.catalog, user);
      var id := s.nextOrderId;
      var o := Order(id, user, SumOrNull(rows), Pending, now);
      var snap := Snapshot(id, rows);
      var cart := Filter(s.cart, NotOwnedBy(user));
      var r := Store(s.catalog, cart, s.orders + [o], s.items + snap, s.nextCartId, id + 1);
      assert PlaceOrder(s, session, now).store == r by {
        PlaceOrderResult(s, user, now);
      }
      FilterPairwise(s.cart, NotOwnedBy(user), CartIdBefore);
      FilterPairwise(s.cart, NotOwnedBy(user), DistinctKey);
      AppendOrderPairwise(s.orders, o);
      AppendedOrderIdsBelow(s.orders, o, id);
      AppendedItemsOwned(s.orders, o, s.items, snap);
    }
  }

  /** The corrected checkout keeps the store valid as well. */
  lemma PlaceOrderGuardedPreservesValid(s: Store, session: Option<UserId>, now: int)
    requires Valid(s) && ClockNotBefore(s, now)
    ensures Valid(PlaceOrderGuarded(s, session, now).store)
  {
    PlaceOrderPreservesValid(s, session, now);
  }

  /** Updating never leaves a line with a quantity that is not positive: such an update deletes instead. */
  lemma UpdateKeepsPositive(s: Store, itemId: nat, quantity: int)
    requires PositiveQuantities(s.cart)
    ensures PositiveQuantities(UpdateCart(s, itemId, quantity).store.cart)
  {
    var r := UpdateCart(s, itemId, quantity).store;
    forall k | 0 <= k < |r.cart|
      ensures r.cart[k].quantity > 0
    {
      if quantity <= 0 {
        assert r.cart[k] in s.cart;
      }
    }
  }

  /** Adding a positive quantity keeps every cart quantity positive. */
  lemma AddKeepsPositive(s: Store, session: Option<UserId>, product: ProductId, quantity: int)
    requires PositiveQuantities(s.cart) && quantity > 0
    ensures PositiveQuantities(AddToCart(s, session, product, quantity).store.cart)
  {
  }

  /**
   * Adding does not reject a quantity that is not positive: a user without a line
   * for the product ends up holding a line with exactly that quantity.
   */
  lemma AddAcceptsNonPositive(s: Store, user: UserId, product: ProductId, quantity: int)
    requires quantity <= 0 && !HasLine(s.cart, user, product)
    ensures var r := AddToCart(s, Some(user), product, quantity);
            && r.reply.success
            && CartLine(s.nextCartId, user, product, quantity) in r.store.cart
            && !PositiveQuantities(r.store.cart)
  {
    var r := AddToCart(s, Some(user), product, quantity);
    assert r.store.cart[|s.cart|].quantity == quantity;
  }

  /** Placing an order only deletes cart lines, so positive quantities stay positive. */
  lemma PlaceOrderKeepsPositive(s: Store, session: Option<UserId>, now: int)
    requires PositiveQuantities(s.cart)
    ensures PositiveQuantities(PlaceOrder(s, session, now).store.cart)
  {
    var r := PlaceOrder(s, session, now).store;
    forall k | 0 <= k < |r.cart|
      ensures r.cart[k].quantity > 0
    {
      assert r.cart[k] in s.cart;
    }
  }
}
