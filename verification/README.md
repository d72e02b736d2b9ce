# Storefront cart and orders, modelled in Dafny

This project models the cart-to-order core of the storefront's `server.js`, an
Express application over MySQL. The model covers seven route handlers:

- `/cart` and `/checkout` show the user's cart lines joined with the product
  catalog, and their total.
- `/add-to-cart` merges a quantity into the user's line for a product, or inserts a
  new line.
- `/update-cart` sets a line's quantity, or deletes the line when the quantity is
  not positive.
- `/place-order` turns the joined cart into one `pending` order plus one order item
  per row, copying the catalog price at that moment. It then deletes the user's
  cart lines.
- `/orders` lists the user's orders, newest first, with their item counts.
- `/order/:id` shows one order and its items, to its owner only.

The database is an immutable `Store` (module `Shop`). It holds:

- the catalog, as a map from product id to `Product`;
- the `cart`, `orders` and `order_items` tables, as sequences whose order stands for
  row order;
- the two auto-increment counters.

Each handler is a pure function of the store and the request, run as one atomic
step:

- A state-changing handler returns a `Step`: the new store and the JSON reply.
- A page handler returns a `Page`: a redirect, a 404 with its text, or the rendered
  view's data.
- The session is an `Option<UserId>`.
- Prices are integer cents.
- The database clock that stamps `created_at` is a parameter, `now`.

Modules:

- `Wrappers`: `Option`.
- `Seqs`: order-preserving `Filter` and the `Pairwise` relation on sequences.
- `Shop`: entities, store, replies and the store invariant `Valid`.
- `Pricing`: the inner join of cart and catalog, and the total.
- `Cart`: the four cart handlers.
- `Orders`: the three order handlers.
- `Invariants`: which handlers preserve which invariant.
- `Scenarios`: a worked example on a concrete store.

The model follows the code, including the checks it does not make:

- `/add-to-cart` does not check that the quantity is positive or that the product
  exists (server.js:108-137).
- `/update-cart` consults neither the session nor the line's owner
  (server.js:143-161).
- `/place-order` has no empty-cart guard (server.js:199-205). See Findings.

## Model

| member | source | states |
|---|---|---|
| Cart.AddToCart | server.js:103-141 | Without a session the reply is "Please login first" and the store is unchanged. With a session the reply is success. If the user already has a line for the product, no line is added and no id is used. Otherwise exactly one line `(nextCartId, user, product, quantity)` is appended. Catalog, orders and items are never touched. |
| Cart.FindLine | server.js:111-117 | The lookup finds the first line of (user, product), and it finds nothing exactly when the user has no such line. |
| Cart.AddMerges | server.js:117-137 | Adding raises the user's holding of the product by exactly the added quantity; it does not replace it. Every other (user, product) holding stays the same. |
| Cart.AddRaisesExistingLine | server.js:117-127 | With one line per key, the existing line keeps its id and gets old + added quantity. Every other line is unchanged. |
| Cart.AddCreatesOneLine | server.js:128-137 | Without an existing line, exactly one new line for (user, product) is created, with a fresh id and the given quantity, after all other lines. |
| Cart.AddUpdatesById | server.js:117-122 | With distinct line ids, the merge's rewrite of the found line is the same update as setting every line with that line's id to old + added quantity. |
| Cart.AddKeepsOtherLines | server.js:103-141 | Adding neither creates nor removes any line outside the (user, product) key, and does nothing at all without a session. |
| Cart.MergeInvariant | server.js:103-141 | Serve any sequence of add requests from any users, with or without a session. A user's holding of a product then grows by the sum of the quantities that user added of it. |
| Cart.UpdateCart | server.js:143-161 | The reply is always `{ success: true }`. A quantity ≤ 0 removes exactly the lines with that id. A positive quantity sets those lines to exactly that quantity and leaves every other line as it was. No other table or counter changes. |
| Cart.UpdateIsAbsolute | server.js:146-160 | Updating sets rather than adds: a second update overrides a first positive one, and a deletion is final. |
| Cart.CartPage | server.js:79-101 | Without a session the page redirects to /login. Otherwise the rows are exactly the cart's lines of the user whose product is in the catalog, each once and in cart order, with its catalog entry. The total is the sum over the cart of price × quantity for each such line. |
| Cart.CheckoutPage | server.js:163-189 | Without a session the page redirects to /login. For a logged-in user it redirects to /cart exactly when none of the user's lines joins the catalog, and in every other case it is exactly the cart page. |
| Pricing.Joined | server.js:84-89 | The join returns the user's lines with a known product, with their current catalog entry. Every such line appears, and nothing else does. |
| Pricing.JoinedIsFilter | server.js:84-89 | The join is exactly the cart filtered by "the user's line, with a product in the catalog", each surviving line once and in cart order, paired with its catalog entry. |
| Pricing.TotalIsCartSum | server.js:93-96 | The total of the join equals the sum over the cart of price × quantity for each line that joins; other lines contribute nothing. |
| Pricing.JoinedEmpty | server.js:177-179 | The join is empty exactly when no line of the cart is the user's with a known product. |
| Pricing.JoinedWithoutUser | server.js:222-225 | Deleting one user's lines empties that user's join and leaves every other user's join unchanged. |
| Pricing.TotalAppend | server.js:93-96 | The total of two row sequences placed one after the other is the sum of their totals. |
| Pricing.TotalNonNegative | server.js:93-96 | With no negative prices or quantities the total is not negative. |
| Pricing.ComputeTotal | server.js:93-96 | The running `total += price * quantity` loop computes the total `Total` defines. |
| Orders.PlaceOrder | server.js:191-235 | Without a session the reply is "Please login first" and nothing is written. Otherwise the order with the next id is appended, with status pending, time `now`, and the SUM over the joined rows (NULL over none). One item per joined row is appended, carrying the line's product and quantity and the catalog's price. Exactly the user's cart lines are deleted. The reply carries the new id. |
| Orders.SnapshotTotal | server.js:199-218 | The copied items add up to the total of the rows they were copied from. |
| Orders.OrderTotalMatchesItems | server.js:199-218 | For a non-empty join, the order's total is Σ price × quantity over its own items. It also equals the sum over the cart of price × quantity for each of the user's lines with a known product, which is the cart page's total just before. |
| Orders.CartEmptiedAfterOrder | server.js:222-225 | After an order the user has no cart line and an empty cart page; every other user's cart page is unchanged. |
| Orders.NewestFirst | server.js:242-248 | The listing holds only the user's orders, each with the number of its stored items. |
| Orders.NewestFirstSorted | server.js:247 | With orders stored in creation-time order, the listing runs from latest to earliest `created_at`. |
| Orders.OrdersPage | server.js:237-254 | Without a session the page redirects to /login. Otherwise it lists exactly the caller's orders (membership both ways), each with its item count. It has as many entries as the caller has orders. |
| Orders.NewestFirstCount | server.js:242-248 | The listing has exactly as many entries as the user has orders. |
| Orders.OrdersPageNewestFirst | server.js:247 | In a valid store the orders page is sorted by `created_at`, descending. |
| Orders.FindOrder | server.js:263-269 | The lookup finds an order with that id owned by the caller, and finds nothing exactly when the caller owns no such order. |
| Orders.DetailRows | server.js:264-268 | The order page's rows are stored items of the order whose product still exists, with the product's current name and image. There are none exactly when no item qualifies. |
| Orders.DetailRowsIsFilter | server.js:264-268 | The order page's rows are exactly the order's items whose product still exists, each once and in stored order, with the product's current name and image. |
| Orders.OrderPage | server.js:256-289 | Without a session the page redirects to /login. The page renders exactly when the caller owns the order and it has an item with a known product; otherwise it is "Order not found". A rendered page carries the caller's order. Its rows are exactly that order's items whose product still exists, each once and in stored order. |
| Orders.OtherUsersOrderNotFound | server.js:263-275 | In a valid store, another user's existing order reads as not found. |
| Orders.PlacedOrderIsShown | server.js:209-228 | For a non-empty join in a valid store, following the returned order id shows the order just created, with exactly the items just copied from the cart, in cart order. |
| Orders.PriceSnapshotSurvivesRepricing | server.js:212-218 | Re-pricing or renaming products afterwards does not change the order page's total or the prices and quantities of its items. |
| Orders.PlacedOrderItemCount | server.js:212-218 | The new order has one stored item per joined row. |
| Orders.PlacedOrderListedFirst | server.js:242-248 | In a valid store, and if the clock has not gone back, the order just placed heads its owner's orders page (`ORDER BY created_at DESC`), with one item per joined row. |
| Orders.EmptyCartOrderIsHidden | server.js:199-209 | As written, an empty join still creates an order, with a NULL total and no items. The order page the client is sent to then reports that order as not found. |
| Orders.PlaceOrderGuarded | server.js:191-235 | Corrected `/place-order`: an empty join is refused and nothing is written; every other request behaves as `/place-order`. |
| Orders.GuardedOrderIsShown | server.js:209-228 | With the guard, every order placed has items and a total and is shown to its owner. |
| Invariants.AddPreservesValid | server.js:103-141 | Adding keeps cart ids increasing and fresh, and keeps one line per (user, product). |
| Invariants.UpdatePreservesValid | server.js:143-161 | Updating or deleting keeps the store valid. |
| Invariants.PlaceOrderPreservesValid | server.js:191-235 | If the clock has not gone back, placing an order keeps the store valid: fresh order id, items owned by stored orders, creation-time order. |
| Invariants.PlaceOrderGuardedPreservesValid | server.js:191-235 | The corrected checkout keeps the store valid too. |
| Invariants.UpdateKeepsPositive | server.js:146-160 | Updating never leaves a non-positive quantity in the cart. |
| Invariants.AddKeepsPositive | server.js:117-137 | Adding a positive quantity keeps every cart quantity positive. |
| Invariants.AddAcceptsNonPositive | server.js:128-137 | Adding a non-positive quantity for a product the user has no line for is not refused: the reply is success and the new line `(nextCartId, user, product, quantity)` is in the cart, so the cart no longer has only positive quantities. |
| Invariants.PlaceOrderKeepsPositive | server.js:222-225 | Placing an order only deletes cart lines, so positive quantities stay positive. |
| Scenarios.ExampleCartPage | server.js:84-98 | Alice's cart of two P1 at 10.00 and one P2 at 5.00 shows those two rows and a total of 25.00. Bob's line is not shown. |
| Scenarios.ExampleOrder | server.js:199-228 | Ordering that cart gives one pending order of 25.00 with items (P1, 2, 10.00) and (P2, 1, 5.00). Only Bob's line is left in the cart. |
| Scenarios.ExampleAddMerges | server.js:117-127 | Adding one more P1 raises Alice's line to three and adds no line. |
| Scenarios.ExampleUpdate | server.js:146-160 | Updating a line to 0 deletes it; updating it to 5 sets it to 5. |

## Left out

- Express routing, body parsing, static files, sessions, EJS rendering and the MySQL connection (server.js:1-41): I/O plumbing. The session is an `Option<UserId>` input, and a page is the data it renders.
- Login, registration, logout, password hashing and the debug route (server.js:291-399): authentication and foreign library calls, outside the cart and order logic.
- The product listing and category filter (server.js:44-77): not part of the cart-to-order flow.
- `public/js/script.js`: client-side DOM and `fetch` wiring with no logic of its own.
- Concurrency: the callbacks of one handler, the missing transaction in `/place-order` and lost updates on add-to-cart. Each handler is one atomic step; nothing is claimed about interleavings.
- Floating point and `toFixed(2)` (server.js:93-98, 181-186): prices are integer cents, and the total is the exact integer.
- `parseInt` coercion of the request body (server.js:119): quantities are integers already. The insert branch stores the quantity as given.
- The shipping and payment fields, which the handler reads and never uses (server.js:196).
- Database failures (`if (err) throw err`): every query is taken to succeed.
- The `created_at` clock: it is the parameter `now`. The orders page's sort is proved under the invariant that the clock never goes back. The model lists the newest-inserted order first, which agrees with `ORDER BY created_at DESC` whenever creation times are ordered, as `Valid` requires. Ties between equal times are ordered by insertion.
- Orders.OrderPage: shows the first owned order with the given id, together with all of that id's visible items. This matches the SQL join when order ids are unique, as `Valid` guarantees. The header is not read from the first joined row.
- Pricing.Joined: its own contract states membership both ways only. That each line appears once and in cart order is proved in `Pricing.JoinedIsFilter`.
- Orders.DetailRows: its own contract states membership and emptiness only. The exact rows are proved in `Orders.DetailRowsIsFilter`.
- Orders.NewestFirst: states membership and item counts only. The number of entries is proved in `Orders.NewestFirstCount`. Order by creation time is stated separately in `Orders.NewestFirstSorted`, under the creation-time invariant.
- Whether the `orders.total_amount` column accepts NULL is a schema question the model does not settle. An empty join yields `None`.

## Findings

| source | as written | input that shows it | evidently intended | confidence | as-written member | corrected member |
|---|---|---|---|---|---|---|
| server.js:199-205 | `/place-order` inserts an order from `SUM(...)` over the joined cart without checking that the join is non-empty. It then copies no items and still deletes the user's cart lines. | A logged-in user whose cart is empty, or holds only lines for deleted products, posts to `/place-order`. The reply is success with an order id, the order's total is NULL, and `/order/<id>` answers "Order not found". | Refuse an order over an empty join and write nothing, as `/checkout` already does (server.js:177-179). | not executed | Orders.EmptyCartOrderIsHidden | Orders.PlaceOrderGuarded |
