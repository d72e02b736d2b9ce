/**
 * Worked examples on a small concrete store: two products, one user's two cart
 * lines, and what adding, updating and ordering make of them.
 */
module Scenarios {
  import opened Wrappers
  import opened Seqs
  import opened Shop
  import opened Pricing
  import opened Cart
  import opened Orders

  const Alice: UserId := 1
  const Bob: UserId := 2

  /** P1 at 10.00 and P2 at 5.00; Alice holds two P1 and one P2, Bob one P1. */
  function ExampleStore(): Store
  {
    Store(map[1 := Product("P1", 1000, "p1.png"), 2 := Product("P2", 500, "p2.png")],
          [CartLine(1, Alice, 1, 2), CartLine(2, Alice, 2, 1), CartLine(3, Bob, 1, 1)],
          [], [], 4, 1)
  }

  /** Alice's join holds her two lines, priced from the catalog; Bob's line is not hers. */
  lemma ExampleJoin()
    ensures var s := ExampleStore();
            Joined(s.cart, s.catalog, Alice) == [CartRow(s.cart[0], s.catalog[1]), CartRow(s.cart[1], s.catalog[2])]
  {
    var s := ExampleStore();
    var c := s.cart;
    var cat := s.catalog;
    assert c[1..][1..][1..] == [] && c[1..][1..][0] == c[2] && c[1..][0] == c[1];
    assert Joined(c[1..][1..], cat, Alice) == [];
    assert Joined(c[1..], cat, Alice) == [CartRow(c[1], cat[2])];
    assert Joined(c, cat, Alice) == [CartRow(c[0], cat[1])] + [CartRow(c[1], cat[2])];
  }

  /** Alice's cart page: both of her lines, totalling 25.00; Bob's line is not shown. */
  lemma ExampleCartPage()
    ensures var s := ExampleStore();
            CartPage(s, Some(Alice))
            == Render(CartView([CartRow(s.cart[0], s.catalog[1]), CartRow(s.cart[1], s.catalog[2])], 2500))
  {
    var s := ExampleStore();
    var rows := Joined(s.cart, s.catalog, Alice);
    ExampleJoin();
    assert Total(rows) == 2500 by {
      assert rows[..1] == [rows[0]] && rows[..1][..0] == [];
      assert Total(rows) == Total(rows[..1]) + Amount(rows[1]);
      assert Total(rows[..1]) == Amount(rows[0]);
    }
  }

  /**
   * Ordering Alice's cart gives one pending order of 25.00 with the items (P1, 2, 10.00)
   * and (P2, 1, 5.00), and leaves only Bob's line in the cart.
   */
  lemma ExampleOrder()
    ensures var r := PlaceOrder(ExampleStore(), Some(Alice), 0);
            && r.reply == Placed(1)
            && r.store.orders == [Order(1, Alice, Some(2500), Pending, 0)]
            && r.store.items == [OrderItem(1, 1, 2, 1000), OrderItem(1, 2, 1, 500)]
            && r.store.cart == [CartLine(3, Bob, 1, 1)]
  {
    var s := ExampleStore();
    var rows := Joined(s.cart, s.catalog, Alice);
    var c := s.cart;
    assert rows == [CartRow(c[0], s.catalog[1]), CartRow(c[1], s.catalog[2])] && Total(rows) == 2500 by {
      ExampleJoin();
      ExampleCartPage();
    }
    assert Snapshot(1, rows) == [OrderItem(1, 1, 2, 1000), OrderItem(1, 2, 1, 500)];
    assert Filter(c, NotOwnedBy(Alice)) == [CartLine(3, Bob, 1, 1)] by {
      assert c[1..][1..][1..] == [] && c[1..][1..][0] == c[2] && c[1..][0] == c[1];
      assert Filter(c[1..][1..], NotOwnedBy(Alice)) == [c[2]];
      assert Filter(c[1..], NotOwnedBy(Alice)) == [c[2]];
    }
    PlaceOrderResult(s, Alice, 0);
  }

  /** Adding one more P1 for Alice raises her existing line to three, without a new line. */
  lemma ExampleAddMerges()
    ensures var r := AddToCart(ExampleStore(), Some(Alice), 1, 1);
            && r.reply == AddReply(true, AddedMessage)
            && r.store.cart == [CartLine(1, Alice, 1, 3), CartLine(2, Alice, 2, 1), CartLine(3, Bob, 1, 1)]
            && r.store.nextCartId == 4
  {
    var s := ExampleStore();
    assert FindLine(s.cart, Alice, 1) == Some(0);
  }

  /** Updating Alice's P2 line to zero deletes it; updating it to 5 sets it to 5. */
  lemma ExampleUpdate()
    ensures UpdateCart(ExampleStore(), 2, 0).store.cart == [CartLine(1, Alice, 1, 2), CartLine(3, Bob, 1, 1)]
    ensures UpdateCart(ExampleStore(), 2, 5).store.cart
            == [CartLine(1, Alice, 1, 2), CartLine(2, Alice, 2, 5), CartLine(3, Bob, 1, 1)]
  {
    var s := ExampleStore();
    assert s.cart[1..][1..] == [CartLine(3, Bob, 1, 1)];
    assert s.cart[1..][1..][1..] == [];
  }
}
