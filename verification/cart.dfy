/**
 * The cart handlers: `/add-to-cart` (merge-add), `/update-cart` (absolute set, or
 * delete when the quantity is not positive), and the `/cart` and `/checkout` pages
 * that show the user's joined lines with their total.
 */
module Cart {
  import opened Wrappers
  import opened Seqs
  import opened Shop
  import opened Pricing

  const AddedMessage := "Product added to cart"

  /** The JSON reply `{ success, message }` of `/add-to-cart`. */
  datatype AddReply = AddReply(success: bool, message: string)

  /** What the cart and checkout pages render: the joined rows and their total. */
  datatype CartView = CartView(rows: seq<CartRow>, total: Cents)

  predicate IsLine(l: CartLine, user: UserId, product: ProductId)
  {
    l.userId == user && l.productId == product
  }

  predicate HasLine(cart: seq<CartLine>, user: UserId, product: ProductId)
  {
    exists k :: 0 <= k < |cart| && IsLine(cart[k], user, product)
  }

  /** Position of the first (user, product) line: the `results[0]` of the lookup query. */
  function FindLine(cart: seq<CartLine>, user: UserId, product: ProductId): (r: Option<nat>)
    ensures r.Some? ==> r.value < |cart| && IsLine(cart[r.value], user, product)
    ensures r.Some? ==> forall j :: 0 <= j < r.value ==> !IsLine(cart[j], user, product)
    ensures r.None? <==> !HasLine(cart, user, product)
  {
    if |cart| == 0 then None
    else if IsLine(cart[0], user, product) then Some(0)
    else match FindLine(cart[1..], user, product)
      case None => None
      case Some(k) => Some(k + 1)
  }

  /**
   * `/add-to-cart`: with no session, refuse and write nothing. Otherwise, if the user
   * already has a line for the product, add `quantity` to it; if not, insert a new
   * line with a fresh id. Neither the quantity's sign nor the product's existence is checked.
   */
  function AddToCart(s: Store, session: Option<UserId>, product: ProductId, quantity: int): (r: Step<AddReply>)
    ensures session.None? ==> r == Step(s, AddReply(false, LoginFirst))
    ensures session.Some? ==> r.reply == AddReply(true, AddedMessage)
    ensures r.store.catalog == s.catalog && r.store.orders == s.orders && r.store.items == s.items
    ensures r.store.nextOrderId == s.nextOrderId
    ensures session.Some? && HasLine(s.cart, session.value, product) ==>
              |r.store.cart| == |s.cart| && r.store.nextCartId == s.nextCartId
    ensures session.Some? && !HasLine(s.cart, session.value, product) ==>
              && r.store.cart == s.cart + [CartLine(s.nextCartId, session.value, product, quantity)]
              && r.store.nextCartId == s.nextCartId + 1
  {
    match session
    case None => Step(s, AddReply(false, LoginFirst))
    case Some(user) =>
      match FindLine(s.cart, user, product)
      case Some(k) =>
        var line := s.cart[k];
        Step(s.(cart := s.cart[k := line.(quantity := line.quantity + quantity)]), AddReply(true, AddedMessage))
      case None =>
        var line := CartLine(s.nextCartId, user, product, quantity);
        Step(s.(cart := s.cart + [line], nextCartId := s.nextCartId + 1), AddReply(true, AddedMessage))
  }

  /** How much of `product` one line contributes to `user`'s holding. */
  function Contribution(l: CartLine, user: UserId, product: ProductId): int
  {
    if IsLine(l, user, product) then l.quantity else 0
  }

  /** The quantity of `product` in `user`'s cart, summed over all of their lines for it. */
  function QuantityOf(cart: seq<CartLine>, user: UserId, product: ProductId): int
  {
    if |cart| == 0 then 0 else Contribution(cart[0], user, product) + QuantityOf(cart[1..], user, product)
  }

  lemma {:induction false} QuantityOfAppend(cart: seq<CartLine>, l: CartLine, user: UserId, product: ProductId)
    ensures QuantityOf(cart + [l], user, product) == QuantityOf(cart, user, product) + Contribution(l, user, product)
  {
    if |cart| > 0 {
      assert (cart + [l])[1..] == cart[1..] + [l];
      QuantityOfAppend(cart[1..], l, user, product);
    }
  }

  lemma {:induction false} QuantityOfReplace(cart: seq<CartLine>, k: nat, l: CartLine, user: UserId, product: ProductId)
    requires k < |cart|
    ensures QuantityOf(cart[k := l], user, product)
         == QuantityOf(cart, user, product) - Contribution(cart[k], user, product) + Contribution(l, user, product)
  {
    if k > 0 {
      assert cart[k := l][1..] == cart[1..][k - 1 := l];
      QuantityOfReplace(cart[1..], k - 1, l, user, product);
    } else {
      assert cart[k := l][1..] == cart[1..];
    }
  }

  /** With one line per (user, product) key, the holding is that line's quantity. */
  lemma {:induction false} QuantityOfUniqueLine(cart: seq<CartLine>, k: nat, user: UserId, product: ProductId)
    requires Pairwise(cart, DistinctKey)
    requires k < |cart| && IsLine(cart[k], user, product)
    ensures QuantityOf(cart, user, product) == cart[k].quantity
  {
    assert Pairwise(cart[1..], DistinctKey) by {
      forall i, j | 0 <= i < j < |cart[1..]|
        ensures DistinctKey(cart[1..][i], cart[1..][j])
      {
        assert cart[1..][i] == cart[i + 1] && cart[1..][j] == cart[j + 1];
      }
    }
    if k == 0 {
      QuantityOfAbsent(cart[1..], user, product);
    } else {
      assert DistinctKey(cart[0], cart[k]);
      QuantityOfUniqueLine(cart[1..], k - 1, user, product);
    }
  }

  lemma {:induction false} QuantityOfAbsent(cart: seq<CartLine>, user: UserId, product: ProductId)
    requires !HasLine(cart, user, product)
    ensures QuantityOf(cart, user, product) == 0
  {
    if |cart| > 0 {
      assert !IsLine(cart[0], user, product);
      forall j | 0 <= j < |cart[1..]|
        ensures !IsLine(cart[1..][j], user, product)
      {
        assert cart[1..][j] == cart[j + 1];
      }
      QuantityOfAbsent(cart[1..], user, product);
    }
  }

  /**
   * Adding merges: the user's holding of the product grows by exactly the added
   * amount, and every other (user, product) holding stays as it was.
   */
  lemma AddMerges(s: Store, user: UserId, product: ProductId, quantity: int)
    ensures var r := AddToCart(s, Some(user), product, quantity).store;
            forall u, p :: QuantityOf(r.cart, u, p) == QuantityOf(s.cart, u, p) + (if u == user && p == product then quantity else 0)
  {
    var r := AddToCart(s, Some(user), product, quantity).store;
    forall u, p
      ensures QuantityOf(r.cart, u, p) == QuantityOf(s.cart, u, p) + (if u == user && p == product then quantity else 0)
    {
      match FindLine(s.cart, user, product)
      case Some(k) =>
        QuantityOfReplace(s.cart, k, s.cart[k].(quantity := s.cart[k].quantity + quantity), u, p);
      case None =>
        QuantityOfAppend(s.cart, CartLine(s.nextCartId, user, product, quantity), u, p);
    }
  }

  /**
   * When the user already has a line for the product, that same line (same id) now
   * holds its old quantity plus the added amount, and every other line is untouched.
   */
  lemma AddRaisesExistingLine(s: Store, user: UserId, product: ProductId, quantity: int, k: nat)
    requires Pairwise(s.cart, DistinctKey)
    requires k < |s.cart| && IsLine(s.cart[k], user, product)
    ensures var r := AddToCart(s, Some(user), product, quantity).store;
            && |r.cart| == |s.cart|
            && r.cart[k] == s.cart[k].(quantity := s.cart[k].quantity + quantity)
            && forall j :: 0 <= j < |s.cart| && j != k ==> r.cart[j] == s.cart[j]
  {
  }

  /**
   * When the user has no line for the product, adding creates exactly one new line
   * for (user, product), with a fresh id and the given quantity, after all existing lines.
   */
  lemma AddCreatesOneLine(s: Store, user: UserId, product: ProductId, quantity: int)
    requires !HasLine(s.cart, user, product)
    requires forall k :: 0 <= k < |s.cart| ==> s.cart[k].id < s.nextCartId
    ensures var r := AddToCart(s, Some(user), product, quantity).store;
            && |r.cart| == |s.cart| + 1
            && r.cart[|s.cart|] == CartLine(s.nextCartId, user, product, quantity)
            && (forall k :: 0 <= k < |r.cart| && IsLine(r.cart[k], user, product) ==> k == |s.cart|)
            && (forall k :: 0 <= k < |s.cart| ==> r.cart[k].id != s.nextCartId)
  {
  }

  /**
   * The merge rewrites the found line by position; `UPDATE cart ... WHERE id = ?` rewrites
   * every line with that id. With distinct ids the two are the same update.
   */
  lemma AddUpdatesById(s: Store, user: UserId, product: ProductId, quantity: int, k: nat)
    requires Pairwise(s.cart, CartIdBefore)
    requires FindLine(s.cart, user, product) == Some(k)
    ensures k < |s.cart|
    ensures AddToCart(s, Some(user), product, quantity).store.cart
            == SetQuantity(s.cart, s.cart[k].id, s.cart[k].quantity + quantity)
  {
    var r := AddToCart(s, Some(user), product, quantity).store.cart;
    var t := SetQuantity(s.cart, s.cart[k].id, s.cart[k].quantity + quantity);
    forall j | 0 <= j < |s.cart|
      ensures r[j] == t[j]
    {
      if j < k {
        assert CartIdBefore(s.cart[j], s.cart[k]);
      } else if j > k {
        assert CartIdBefore(s.cart[k], s.cart[j]);
      }
    }
  }

  /** Lines outside the (user, product) key are neither created nor removed by adding. */
  lemma AddKeepsOtherLines(s: Store, session: Option<UserId>, product: ProductId, quantity: int)
    ensures var r := AddToCart(s, session, product, quantity).store;
            forall l :: (session.None? || !IsLine(l, session.value, product)) ==> (l in r.cart <==> l in s.cart)
  {
    if session.Some? {
      var r := AddToCart(s, session, product, quantity).store;
      match FindLine(s.cart, session.value, product)
      case Some(k) =>
        forall l | !IsLine(l, session.value, product)
          ensures l in r.cart <==> l in s.cart
        {
          if l in s.cart {
            var j :| 0 <= j < |s.cart| && s.cart[j] == l;
            assert r.cart[j] == l;
          }
          if l in r.cart {
            var j :| 0 <= j < |r.cart| && r.cart[j] == l;
            assert s.cart[j] == l;
          }
        }
      case None =>
    }
  }

  /** One `/add-to-cart` request, as the session and body present it. */
  datatype AddRequest = AddRequest(session: Option<UserId>, product: ProductId, quantity: int)

  /** The store after serving the requests one after another, each as one atomic step. */
  function Replay(s: Store, reqs: seq<AddRequest>): Store
    decreases |reqs|
  {
    if |reqs| == 0 then s
    else Replay(AddToCart(s, reqs[0].session, reqs[0].product, reqs[0].quantity).store, reqs[1..])
  }

  /** The sum of the quantities `user` asked to add of `product`. */
  function AddedBy(reqs: seq<AddRequest>, user: UserId, product: ProductId): int
  {
    if |reqs| == 0 then 0
    else (if reqs[0].session == Some(user) && reqs[0].product == product then reqs[0].quantity else 0)
         + AddedBy(reqs[1..], user, product)
  }

  /**
   * The merge invariant: after any sequence of add requests, interleaved with other
   * users' requests and with requests made without a session, a user's holding of a
   * product has grown by exactly the sum of the quantities that user added of it.
   */
  lemma {:induction false} MergeInvariant(s: Store, reqs: seq<AddRequest>, user: UserId, product: ProductId)
    ensures QuantityOf(Replay(s, reqs).cart, user, product) == QuantityOf(s.cart, user, product) + AddedBy(reqs, user, product)
    decreases |reqs|
  {
    if |reqs| > 0 {
      var q := reqs[0];
      var next := AddToCart(s, q.session, q.product, q.quantity).store;
      if q.session.Some? {
        AddMerges(s, q.session.value, q.product, q.quantity);
      }
      MergeInvariant(next, reqs[1..], user, product);
    }
  }

  /** Every line with id `itemId` gets `quantity`; the rest stay as they are. */
  function SetQuantity(cart: seq<CartLine>, itemId: nat, quantity: int): (r: seq<CartLine>)
    ensures |r| == |cart|
    ensures forall k :: 0 <= k < |r| ==>
              && r[k].id == cart[k].id && r[k].userId == cart[k].userId && r[k].productId == cart[k].productId
              && r[k].quantity == if cart[k].id == itemId then quantity else cart[k].quantity
  {
    if |cart| == 0 then []
    else [if cart[0].id == itemId then cart[0].(quantity := quantity) else cart[0]] + SetQuantity(cart[1..], itemId, quantity)
  }

  /** The condition `DELETE FROM cart WHERE id = ?` keeps a line under. */
  function OtherId(itemId: nat): CartLine -> bool
  {
    (l: CartLine) => l.id != itemId
  }

  /** The JSON reply `{ success }` of `/update-cart`. */
  datatype UpdateReply = UpdateReply(success: bool)

  /**
   * `/update-cart`: a quantity that is not positive deletes the line with `itemId`;
   * a positive one becomes that line's quantity. No session or ownership is consulted,
   * an unknown id changes nothing, and the reply is always success.
   */
  function UpdateCart(s: Store, itemId: nat, quantity: int): (r: Step<UpdateReply>)
    ensures r.reply == UpdateReply(true)
    ensures r.store.catalog == s.catalog && r.store.orders == s.orders && r.store.items == s.items
    ensures r.store.nextCartId == s.nextCartId && r.store.nextOrderId == s.nextOrderId
    ensures quantity <= 0 ==> forall l :: l in r.store.cart <==> l in s.cart && l.id != itemId
    ensures quantity > 0 ==> |r.store.cart| == |s.cart|
    ensures quantity > 0 ==> forall k :: 0 <= k < |s.cart| ==>
              r.store.cart[k] == if s.cart[k].id == itemId then s.cart[k].(quantity := quantity) else s.cart[k]
  {
    if quantity <= 0 then Step(s.(cart := Filter(s.cart, OtherId(itemId))), UpdateReply(true))
    else Step(s.(cart := SetQuantity(s.cart, itemId, quantity)), UpdateReply(true))
  }

  lemma {:induction false} FilterAfterSet(cart: seq<CartLine>, itemId: nat, quantity: int)
    ensures Filter(SetQuantity(cart, itemId, quantity), OtherId(itemId)) == Filter(cart, OtherId(itemId))
  {
    if |cart| > 0 {
      FilterAfterSet(cart[1..], itemId, quantity);
      assert SetQuantity(cart, itemId, quantity)[1..] == SetQuantity(cart[1..], itemId, quantity);
    }
  }

  /**
   * Updating sets, it does not add: a later positive update or a deletion overrides
   * an earlier positive update, and after a deletion the line stays gone.
   */
  lemma UpdateIsAbsolute(s: Store, itemId: nat, first: int, second: int)
    ensures first > 0 || second <= 0 ==>
              UpdateCart(UpdateCart(s, itemId, first).store, itemId, second) == UpdateCart(s, itemId, second)
    ensures first <= 0 ==>
              UpdateCart(UpdateCart(s, itemId, first).store, itemId, second) == UpdateCart(s, itemId, first)
  {
    var once := UpdateCart(s, itemId, first).store;
    if first > 0 && second > 0 {
      assert UpdateCart(once, itemId, second).store.cart == SetQuantity(s.cart, itemId, second);
    } else if first > 0 {
      FilterAfterSet(s.cart, itemId, first);
    } else {
      var kept := Filter(s.cart, OtherId(itemId));
      assert forall k :: 0 <= k < |kept| ==> kept[k].id != itemId;
      FilterKeepsAll(kept, OtherId(itemId));
      if second > 0 {
        assert SetQuantity(kept, itemId, second) == kept;
      }
    }
  }

  /** `/cart`: redirect to the login page without a session, else the user's joined lines and their total. */
  function CartPage(s: Store, session: Option<UserId>): (r: Page<CartView>)
    ensures session.None? ==> r == Redirect(LoginPath)
    ensures session.Some? ==> r.Render? && r.content.total == Total(r.content.rows)
    ensures session.Some? ==> r.content.total == CartSum(s.cart, s.catalog, session.value)
    ensures session.Some? ==> r.content.rows == RowsOf(Filter(s.cart, JoinsFor(s.catalog, session.value)), s.catalog)
    ensures session.Some? ==> forall k :: 0 <= k < |r.content.rows| ==>
              var row := r.content.rows[k];
              && row.line in s.cart && row.line.userId == session.value
              && row.line.productId in s.catalog && row.product == s.catalog[row.line.productId]
    ensures session.Some? ==> forall l :: l in s.cart && l.userId == session.value && l.productId in s.catalog ==>
              CartRow(l, s.catalog[l.productId]) in r.content.rows
  {
    match session
    case None => Redirect(LoginPath)
    case Some(user) =>
      var rows := Joined(s.cart, s.catalog, user);
      TotalIsCartSum(s.cart, s.catalog, user);
      JoinedIsFilter(s.cart, s.catalog, user);
      Render(CartView(rows, Total(rows)))
  }

  /**
   * `/checkout`: redirect to the login page without a session, back to the cart page
   * when the user has no line with a known product, and otherwise show exactly what
   * the cart page shows. It reads the store and writes nothing.
   */
  function CheckoutPage(s: Store, session: Option<UserId>): (r: Page<CartView>)
    ensures session.None? ==> r == Redirect(LoginPath)
    ensures session.Some? ==>
              (r == Redirect(CartPath) <==> forall l :: l in s.cart ==> !Joins(l, s.catalog, session.value))
    ensures r.Redirect? || r == CartPage(s, session)
    ensures session.Some? && r != Redirect(CartPath) ==> r == CartPage(s, session)
  {
    match session
    case None => Redirect(LoginPath)
    case Some(user) =>
      var rows := Joined(s.cart, s.catalog, user);
      JoinedEmpty(s.cart, s.catalog, user);
      if |rows| == 0 then Redirect(CartPath) else Render(CartView(rows, Total(rows)))
  }
}
