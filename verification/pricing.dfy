/**
 * The cart joined with the catalog, and the total the cart page, the checkout page
 * and the order all compute from it: the sum of price times quantity.
 */
module Pricing {
  import opened Seqs
  import opened Shop

  /** A cart line joined with its catalog entry: one row of `cart JOIN products`. */
  datatype CartRow = CartRow(line: CartLine, product: Product)

  /** A line takes part in the inner join for `user` when it is theirs and its product exists. */
  predicate Joins(l: CartLine, catalog: map<ProductId, Product>, user: UserId)
  {
    l.userId == user && l.productId in catalog
  }

  /** The user's lines whose product is in the catalog, each with its current catalog entry, in cart order. */
  function Joined(cart: seq<CartLine>, catalog: map<ProductId, Product>, user: UserId): (rows: seq<CartRow>)
    ensures |rows| <= |cart|
    ensures forall k :: 0 <= k < |rows| ==>
              && rows[k].line in cart
              && Joins(rows[k].line, catalog, user)
              && rows[k].product == catalog[rows[k].line.productId]
    ensures forall l :: l in cart && Joins(l, catalog, user) ==> CartRow(l, catalog[l.productId]) in rows
  {
    if |cart| == 0 then []
    else
      var head := if Joins(cart[0], catalog, user) then [CartRow(cart[0], catalog[cart[0].productId])] else [];
      head + Joined(cart[1..], catalog, user)
  }

  /** The join is empty exactly when none of the cart's lines is the user's with a known product. */
  lemma JoinedEmpty(cart: seq<CartLine>, catalog: map<ProductId, Product>, user: UserId)
    ensures Joined(cart, catalog, user) == [] <==> forall l :: l in cart ==> !Joins(l, catalog, user)
  {
    var rows := Joined(cart, catalog, user);
    if rows != [] {
      assert rows[0].line in cart && Joins(rows[0].line, catalog, user);
    }
  }

  /** Removing every line of one user empties that user's join and leaves every other user's join as it was. */
  lemma {:induction false} JoinedWithoutUser(cart: seq<CartLine>, catalog: map<ProductId, Product>, gone: UserId, user: UserId)
    ensures Joined(Filter(cart, NotOwnedBy(gone)), catalog, user)
         == if user == gone then [] else Joined(cart, catalog, user)
  {
    var keep := NotOwnedBy(gone);
    if |cart| > 0 {
      JoinedWithoutUser(cart[1..], catalog, gone, user);
      var kept := if keep(cart[0]) then [cart[0]] else [];
      assert Filter(cart, keep) == kept + Filter(cart[1..], keep);
      JoinedAppend(kept, Filter(cart[1..], keep), catalog, user);
      if keep(cart[0]) {
        assert kept == [cart[0]] && [cart[0]][1..] == [];
      }
    }
  }

  /** Joining a concatenation joins each part. */
  lemma {:induction false} JoinedAppend(a: seq<CartLine>, b: seq<CartLine>, catalog: map<ProductId, Product>, user: UserId)
    ensures Joined(a + b, catalog, user) == Joined(a, catalog, user) + Joined(b, catalog, user)
  {
    if |a| == 0 {
      assert a + b == b;
    } else {
      assert (a + b)[0] == a[0] && (a + b)[1..] == a[1..] + b;
      JoinedAppend(a[1..], b, catalog, user);
    }
  }

  /** The inner-join condition for `user`, as a test on one line. */
  function JoinsFor(catalog: map<ProductId, Product>, user: UserId): CartLine -> bool
  {
    (l: CartLine) => Joins(l, catalog, user)
  }

  /** Lines whose product is in the catalog, each paired with its catalog entry. */
  function RowsOf(lines: seq<CartLine>, catalog: map<ProductId, Product>): seq<CartRow>
    requires forall k :: 0 <= k < |lines| ==> lines[k].productId in catalog
  {
    seq(|lines|, k requires 0 <= k < |lines| => CartRow(lines[k], catalog[lines[k].productId]))
  }

  lemma RowsOfAppend(a: seq<CartLine>, b: seq<CartLine>, catalog: map<ProductId, Product>)
    requires forall k :: 0 <= k < |a| ==> a[k].productId in catalog
    requires forall k :: 0 <= k < |b| ==> b[k].productId in catalog
    ensures forall k :: 0 <= k < |a + b| ==> (a + b)[k].productId in catalog
    ensures RowsOf(a + b, catalog) == RowsOf(a, catalog) + RowsOf(b, catalog)
  {
    assert forall k :: 0 <= k < |a + b| ==> (a + b)[k] == if k < |a| then a[k] else b[k - |a|];
  }

  /**
   * The join is exactly the cart filtered by the join condition, each surviving line
   * once and in cart order, paired with its catalog entry.
   */
  lemma {:induction false} JoinedIsFilter(cart: seq<CartLine>, catalog: map<ProductId, Product>, user: UserId)
    ensures var kept := Filter(cart, JoinsFor(catalog, user));
            && (forall k :: 0 <= k < |kept| ==> kept[k].productId in catalog)
            && Joined(cart, catalog, user) == RowsOf(kept, catalog)
  {
    var keep := JoinsFor(catalog, user);
    var kept := Filter(cart, keep);
    assert forall k :: 0 <= k < |kept| ==> keep(kept[k]);
    if |cart| > 0 {
      var tail := Filter(cart[1..], keep);
      var h := if keep(cart[0]) then [cart[0]] else [];
      assert kept == h + tail;
      assert (forall k :: 0 <= k < |tail| ==> tail[k].productId in catalog) && Joined(cart[1..], catalog, user) == RowsOf(tail, catalog) by {
        JoinedIsFilter(cart[1..], catalog, user);
      }
      var hr := if Joins(cart[0], catalog, user) then [CartRow(cart[0], catalog[cart[0].productId])] else [];
      assert RowsOf(h, catalog) == hr;
      RowsOfAppend(h, tail, catalog);
      assert Joined(cart, catalog, user) == hr + Joined(cart[1..], catalog, user);
    }
  }

  /** Σ price × quantity taken directly over the cart, counting a line only when it joins. */
  function CartSum(cart: seq<CartLine>, catalog: map<ProductId, Product>, user: UserId): int
  {
    if |cart| == 0 then 0
    else (if Joins(cart[0], catalog, user) then catalog[cart[0].productId].price * cart[0].quantity else 0)
         + CartSum(cart[1..], catalog, user)
  }

  /** What one joined row adds to the total. */
  function Amount(row: CartRow): int
  {
    row.product.price * row.line.quantity
  }

  /** Σ price × quantity over the rows, accumulated in row order. */
  function Total(rows: seq<CartRow>): int
  {
    if |rows| == 0 then 0 else Total(rows[..|rows| - 1]) + Amount(rows[|rows| - 1])
  }

  /** The total of a concatenation is the sum of the totals, so the order of rows does not matter to it. */
  lemma {:induction false} TotalAppend(a: seq<CartRow>, b: seq<CartRow>)
    ensures Total(a + b) == Total(a) + Total(b)
  {
    if |b| == 0 {
      assert a + b == a;
    } else {
      var n := |b| - 1;
      assert (a + b)[..|a + b| - 1] == a + b[..n];
      TotalAppend(a, b[..n]);
    }
  }

  /** The total of the join is the sum over the cart of each joining line's price × quantity. */
  lemma {:induction false} TotalIsCartSum(cart: seq<CartLine>, catalog: map<ProductId, Product>, user: UserId)
    ensures Total(Joined(cart, catalog, user)) == CartSum(cart, catalog, user)
  {
    if |cart| > 0 {
      var head := if Joins(cart[0], catalog, user) then [CartRow(cart[0], catalog[cart[0].productId])] else [];
      var rest := Joined(cart[1..], catalog, user);
      assert Joined(cart, catalog, user) == head + rest;
      TotalAppend(head, rest);
      TotalIsCartSum(cart[1..], catalog, user);
      if |head| == 1 {
        assert head[..0] == [];
      }
    }
  }

  /** With no negative price or quantity the total is not negative. */
  lemma {:induction false} TotalNonNegative(rows: seq<CartRow>)
    requires forall k :: 0 <= k < |rows| ==> rows[k].product.price >= 0 && rows[k].line.quantity >= 0
    ensures Total(rows) >= 0
  {
    if |rows| > 0 {
      TotalNonNegative(rows[..|rows| - 1]);
    }
  }

  /** The running total of the cart and checkout pages: `total += price * quantity` for each row. */
  method ComputeTotal(rows: seq<CartRow>) returns (total: int)
    ensures total == Total(rows)
  {
    total := 0;
    var i := 0;
    while i < |rows|
      invariant 0 <= i <= |rows|
      invariant total == Total(rows[..i])
    {
      assert rows[..i + 1][..i] == rows[..i];
      total := total + rows[i].product.price * rows[i].line.quantity;
      i := i + 1;
    }
    assert rows[..|rows|] == rows;
  }
}
