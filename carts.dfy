/**
 * CartService: the one active cart of a session, its lines, and the totals the server
 * recomputes from the stored lines after every change. The carts and cart_items tables are
 * fields of the service; the products table is read through a parameter.
 */
module Carts {
  import opened Wrappers
  import opened Errors
  import opened Entities
  import Tables
  import ProductRepository

  /** A day, in milliseconds. */
  const DayMs: int := 86400000

  /** CART_EXPIRATION_DAYS: a cart lives fifteen days after its last change. */
  const CartExpirationDays: int := 15

  /** calculateExpirationDate: fifteen days after `now`. */
  function ExpirationDate(now: Time): (t: Time)
    ensures t > now
    ensures t - now == 15 * 24 * 60 * 60 * 1000
  {
    now + CartExpirationDays * DayMs
  }

  /** calculateItemTotal: the quantity times the discounted unit price. */
  function ItemTotal(quantity: int, price: Cents, discount: Cents): (t: Cents)
    ensures quantity >= 0 && discount <= price ==> t >= 0
    ensures quantity == 0 || price == discount ==> t == 0
    ensures discount == 0 ==> t == quantity * price
  {
    quantity * (price - discount)
  }

  /** A line whose stored total is the one calculateItemTotal gives for its stored fields. */
  predicate Consistent(item: CartItem) {
    item.total == ItemTotal(item.quantity, item.price, item.discount)
  }

  /** The sum of price × quantity over the lines. */
  function Subtotal(lines: seq<CartItem>): Cents {
    if |lines| == 0 then 0
    else Subtotal(lines[..|lines| - 1]) + lines[|lines| - 1].price * lines[|lines| - 1].quantity
  }

  /** The sum of discount × quantity over the lines. */
  function DiscountTotal(lines: seq<CartItem>): Cents {
    if |lines| == 0 then 0
    else DiscountTotal(lines[..|lines| - 1]) + lines[|lines| - 1].discount * lines[|lines| - 1].quantity
  }

  /** The sum of the lines' stored totals. */
  function LineTotals(lines: seq<CartItem>): Cents {
    if |lines| == 0 then 0 else LineTotals(lines[..|lines| - 1]) + lines[|lines| - 1].total
  }

  /** When every line is consistent, the cart total is the sum of the line totals. */
  lemma {:induction false} TotalIsSumOfLineTotals(lines: seq<CartItem>)
    requires forall i :: 0 <= i < |lines| ==> Consistent(lines[i])
    ensures Subtotal(lines) - DiscountTotal(lines) == LineTotals(lines)
  {
    if |lines| > 0 {
      var init := lines[..|lines| - 1];
      var last := lines[|lines| - 1];
      forall i | 0 <= i < |init| ensures Consistent(init[i]) {
        assert init[i] == lines[i];
      }
      TotalIsSumOfLineTotals(init);
      assert Consistent(last);
      assert last.quantity * (last.price - last.discount) == last.price * last.quantity - last.discount * last.quantity;
    }
  }

  /** No lines, no money. */
  lemma NoLinesNoTotals(lines: seq<CartItem>)
    requires lines == []
    ensures Subtotal(lines) == 0 && DiscountTotal(lines) == 0 && LineTotals(lines) == 0
  {
  }

  // ---------------------------------------------------------------------------------------
  // The carts table

  /** Two carts never share an id, and two active carts never share a session. */
  predicate CartsApart(a: Cart, b: Cart) {
    a.id != b.id && (a.status == Active && b.status == Active ==> a.sessionId != b.sessionId)
  }

  predicate ValidCarts(carts: seq<Cart>) {
    Tables.Pairwise(carts, CartsApart)
  }

  /** The table after a write, with what the service returned or threw. */
  datatype CartOutcome = CartOutcome(carts: seq<Cart>, result: Result<Cart, Exception>)

  /** findActiveBySessionId. */
  function ActiveCart(carts: seq<Cart>, sessionId: string): (r: Option<Cart>)
    ensures r.Some? ==> r.value in carts && r.value.sessionId == sessionId && r.value.status == Active
    ensures r.None? <==> forall c :: c in carts ==> !(c.sessionId == sessionId && c.status == Active)
  {
    Tables.FindFirst(carts, (c: Cart) => c.sessionId == sessionId && c.status == Active)
  }

  /** The cart getOrCreateCart creates: active, empty, expiring fifteen days from now. */
  function NewCart(id: Id, sessionId: string, now: Time): Cart {
    Cart(id, sessionId, Active, 0, 0, 0, ExpirationDate(now))
  }

  predicate CartIdTaken(carts: seq<Cart>, id: Id) {
    exists x :: x in carts && x.id == id
  }

  /** Saving the expired cart with status ABANDONED. */
  function Abandon(carts: seq<Cart>, id: Id): seq<Cart> {
    Tables.UpdateWhere(carts, (x: Cart) => x.id == id, (x: Cart) => x.(status := Abandoned))
  }

  /** Saving a new cart: a taken primary key is a database error. */
  function Insert(carts: seq<Cart>, c: Cart): CartOutcome {
    if CartIdTaken(carts, c.id) then CartOutcome(carts, Failure(DuplicateEntry))
    else CartOutcome(carts + [c], Success(c))
  }

  /**
   * getOrCreateCart: the session's active cart while it has not expired; an expired one is
   * saved as abandoned, and then, as when there is none, a new cart is created. The new cart
   * is inserted next to the abandoned one (see GetOrCreateAsWritten for the unique column).
   */
  function GetOrCreate(carts: seq<Cart>, sessionId: string, newId: Id, now: Time): (o: CartOutcome)
    ensures o.result.Failure? ==> o.result == Failure(DuplicateEntry)
    ensures o.result.Success? ==>
              && o.result.value in o.carts && o.result.value.sessionId == sessionId
              && o.result.value.status == Active && now <= o.result.value.expiresAt
  {
    match ActiveCart(carts, sessionId)
    case Some(c) =>
      if now > c.expiresAt then Insert(Abandon(carts, c.id), NewCart(newId, sessionId, now))
      else CartOutcome(carts, Success(c))
    case None => Insert(carts, NewCart(newId, sessionId, now))
  }

  /** A live cart is handed back and nothing is written. */
  lemma GetOrCreateKeepsLiveCart(carts: seq<Cart>, sessionId: string, newId: Id, now: Time)
    requires ActiveCart(carts, sessionId).Some? && now <= ActiveCart(carts, sessionId).value.expiresAt
    ensures GetOrCreate(carts, sessionId, newId, now) == CartOutcome(carts, Success(ActiveCart(carts, sessionId).value))
  {
  }

  /**
   * An expired cart is marked abandoned, every other row is kept, and a new active cart with
   * zero totals takes its place when the new id is free.
   */
  lemma GetOrCreateReplacesExpired(carts: seq<Cart>, sessionId: string, newId: Id, now: Time)
    requires ActiveCart(carts, sessionId).Some? && now > ActiveCart(carts, sessionId).value.expiresAt
    requires !CartIdTaken(carts, newId)
    ensures var old_ := ActiveCart(carts, sessionId).value;
            var o := GetOrCreate(carts, sessionId, newId, now);
            && o.result == Success(NewCart(newId, sessionId, now))
            && |o.carts| == |carts| + 1 && o.carts[|carts|] == NewCart(newId, sessionId, now)
            && (forall i :: 0 <= i < |carts| && carts[i].id == old_.id ==> o.carts[i] == carts[i].(status := Abandoned))
            && (forall i :: 0 <= i < |carts| && carts[i].id != old_.id ==> o.carts[i] == carts[i])
  {
    var c := ActiveCart(carts, sessionId).value;
    var a := Abandon(carts, c.id);
    assert !CartIdTaken(a, newId) by {
      forall x | x in a ensures x.id != newId {
        var i :| 0 <= i < |a| && a[i] == x;
        assert carts[i] in carts;
      }
    }
  }

  /** With a free id to give a new cart, getOrCreateCart always succeeds. */
  lemma GetOrCreateSucceedsWithFreshId(carts: seq<Cart>, sessionId: string, newId: Id, now: Time)
    requires !CartIdTaken(carts, newId)
    ensures GetOrCreate(carts, sessionId, newId, now).result.Success?
  {
    match ActiveCart(carts, sessionId)
    case None =>
    case Some(c) =>
      if now > c.expiresAt {
        GetOrCreateReplacesExpired(carts, sessionId, newId, now);
      }
  }

  /**
   * getOrCreateCart keeps one active cart per session, and the cart it answers with is the one
   * the session's next lookup finds.
   */
  lemma GetOrCreateKeepsValid(carts: seq<Cart>, sessionId: string, newId: Id, now: Time)
    requires ValidCarts(carts)
    ensures ValidCarts(GetOrCreate(carts, sessionId, newId, now).carts)
    ensures var o := GetOrCreate(carts, sessionId, newId, now);
            o.result.Success? ==> ActiveCart(o.carts, sessionId) == Some(o.result.value)
  {
    match ActiveCart(carts, sessionId)
    case None =>
      InsertKeepsValid(carts, NewCart(newId, sessionId, now));
    case Some(c) =>
      if now > c.expiresAt {
        AbandonKeepsValid(carts, c.id);
        AbandonLeavesNoActive(carts, c);
        InsertKeepsValid(Abandon(carts, c.id), NewCart(newId, sessionId, now));
      }
  }

  /** Asking again at the same instant returns the same cart and writes nothing. */
  lemma GetOrCreateIdempotent(carts: seq<Cart>, sessionId: string, id1: Id, id2: Id, now: Time)
    requires ValidCarts(carts)
    requires GetOrCreate(carts, sessionId, id1, now).result.Success?
    ensures var o := GetOrCreate(carts, sessionId, id1, now);
            GetOrCreate(o.carts, sessionId, id2, now) == o
  {
    GetOrCreateKeepsValid(carts, sessionId, id1, now);
  }

  lemma AbandonKeepsValid(carts: seq<Cart>, id: Id)
    requires ValidCarts(carts)
    ensures ValidCarts(Abandon(carts, id))
  {
    Tables.UpdateWhereKeepsPairwise(carts, (x: Cart) => x.id == id, (x: Cart) => x.(status := Abandoned), CartsApart);
  }

  /** Once the session's active cart is abandoned, the session has no active cart. */
  lemma AbandonLeavesNoActive(carts: seq<Cart>, c: Cart)
    requires ValidCarts(carts) && c in carts && c.status == Active
    ensures forall x :: x in Abandon(carts, c.id) ==> !(x.sessionId == c.sessionId && x.status == Active)
  {
    var a := Abandon(carts, c.id);
    var k :| 0 <= k < |carts| && carts[k] == c;
    forall x | x in a ensures !(x.sessionId == c.sessionId && x.status == Active) {
      var i :| 0 <= i < |a| && a[i] == x;
      if carts[i].id != c.id {
        if i < k {
          assert CartsApart(carts[i], carts[k]);
        } else {
          assert CartsApart(carts[k], carts[i]);
        }
      }
    }
  }

  /** Inserting an active cart for a session that has none keeps the table valid and findable. */
  lemma InsertKeepsValid(carts: seq<Cart>, c: Cart)
    requires ValidCarts(carts) && c.status == Active
    requires forall x :: x in carts ==> !(x.sessionId == c.sessionId && x.status == Active)
    ensures ValidCarts(Insert(carts, c).carts)
    ensures Insert(carts, c).result.Success? ==> ActiveCart(Insert(carts, c).carts, c.sessionId) == Some(c)
  {
    if !CartIdTaken(carts, c.id) {
      var r := carts + [c];
      forall i, j | 0 <= i < j < |r| ensures CartsApart(r[i], r[j]) {
        if j == |carts| {
          assert r[i] in carts;
        } else {
          assert CartsApart(carts[i], carts[j]);
        }
      }
      var found := ActiveCart(r, c.sessionId);
      assert c in r;
      assert found.Some?;
      assert found.value !in carts;
    }
  }

  // ---------------------------------------------------------------------------------------
  // updateCartTotals

  /** The lines of a cart: the cart's eager `items` relation. */
  function LinesOf(items: seq<CartItem>, cartId: Id): (lines: seq<CartItem>)
    ensures forall x :: x in lines <==> x in items && x.cartId == cartId
  {
    Tables.Filter(items, (x: CartItem) => x.cartId == cartId)
  }

  /** Writes the totals and the renewed expiry into the cart with that id. */
  function SaveTotals(carts: seq<Cart>, cartId: Id, subtotal: Cents, discountTotal: Cents, now: Time): seq<Cart> {
    Tables.UpdateWhere(carts, (x: Cart) => x.id == cartId, (x: Cart) => WithTotals(x, subtotal, discountTotal, now))
  }

  function WithTotals(c: Cart, subtotal: Cents, discountTotal: Cents, now: Time): Cart {
    c.(subtotal := subtotal, discountTotal := discountTotal, total := subtotal - discountTotal,
       expiresAt := ExpirationDate(now))
  }

  /**
   * updateCartTotals(cartId): NotFound for an unknown cart; otherwise the cart's totals are
   * recomputed from its stored lines and its expiry is pushed fifteen days past now.
   */
  function RecomputeTotals(carts: seq<Cart>, items: seq<CartItem>, cartId: Id, now: Time): (o: CartOutcome)
    ensures |o.carts| == |carts|
    ensures o.result.Failure? <==> forall x :: x in carts ==> x.id != cartId
    ensures o.result.Failure? ==> o.carts == carts && o.result.error == NotFound("Cart not found")
    ensures o.result.Success? ==> o.result.value.id == cartId && o.result.value in o.carts
  {
    match Tables.FindFirst(carts, (x: Cart) => x.id == cartId)
    case None => CartOutcome(carts, Failure(NotFound("Cart not found")))
    case Some(c) =>
      var lines := LinesOf(items, cartId);
      CartOutcome(SaveTotals(carts, cartId, Subtotal(lines), DiscountTotal(lines), now),
                  Success(WithTotals(c, Subtotal(lines), DiscountTotal(lines), now)))
  }

  /**
   * The recomputed totals: subtotal Σ price·qty, discount total Σ discount·qty, total their
   * difference (the sum of the line totals when those are consistent), expiry now + 15 days;
   * the other carts are untouched.
   */
  lemma RecomputeTotalsSpec(carts: seq<Cart>, items: seq<CartItem>, cartId: Id, now: Time)
    requires exists x :: x in carts && x.id == cartId
    ensures var o := RecomputeTotals(carts, items, cartId, now);
            var lines := LinesOf(items, cartId);
            && o.result.Success? && o.result.value.id == cartId
            && o.result.value.subtotal == Subtotal(lines)
            && o.result.value.discountTotal == DiscountTotal(lines)
            && o.result.value.total == o.result.value.subtotal - o.result.value.discountTotal
            && o.result.value.expiresAt == now + 15 * 86400000
            && ((forall x :: x in lines ==> Consistent(x)) ==> o.result.value.total == LineTotals(lines))
            && |o.carts| == |carts|
            && (forall i :: 0 <= i < |carts| && carts[i].id != cartId ==> o.carts[i] == carts[i])
  {
    var lines := LinesOf(items, cartId);
    if forall x :: x in lines ==> Consistent(x) {
      forall i | 0 <= i < |lines| ensures Consistent(lines[i]) {
        assert lines[i] in lines;
      }
      TotalIsSumOfLineTotals(lines);
    }
  }

  lemma RecomputeKeepsValid(carts: seq<Cart>, items: seq<CartItem>, cartId: Id, now: Time)
    requires ValidCarts(carts)
    ensures ValidCarts(RecomputeTotals(carts, items, cartId, now).carts)
  {
    var lines := LinesOf(items, cartId);
    var s, d := Subtotal(lines), DiscountTotal(lines);
    Tables.UpdateWhereKeepsPairwise(carts, (x: Cart) => x.id == cartId, (x: Cart) => WithTotals(x, s, d, now), CartsApart);
  }

  /** After getOrCreateCart succeeds, recomputing that cart's totals finds it and keeps it active. */
  lemma RecomputeAfterGetOrCreate(carts: seq<Cart>, items: seq<CartItem>, sessionId: string, newId: Id, now: Time)
    requires ValidCarts(carts)
    requires GetOrCreate(carts, sessionId, newId, now).result.Success?
    ensures var o := GetOrCreate(carts, sessionId, newId, now);
            var t := RecomputeTotals(o.carts, items, o.result.value.id, now);
            && t.result.Success? && t.result.value.id == o.result.value.id
            && t.result.value.sessionId == sessionId && t.result.value.status == Active
  {
    var o := GetOrCreate(carts, sessionId, newId, now);
    GetOrCreateKeepsValid(carts, sessionId, newId, now);
    var c := o.result.value;
    var found := Tables.FindFirst(o.carts, (x: Cart) => x.id == c.id);
    assert found.Some?;
    var k :| 0 <= k < |o.carts| && o.carts[k] == c;
    forall j | 0 <= j < |o.carts| && j != k ensures o.carts[j].id != c.id {
      if j < k {
        assert CartsApart(o.carts[j], o.carts[k]);
      } else {
        assert CartsApart(o.carts[k], o.carts[j]);
      }
    }
  }

  // ---------------------------------------------------------------------------------------
  // The cart_items table

  /** Two lines never share an id, nor a cart and a product: adding a product again merges. */
  predicate ItemsApart(a: CartItem, b: CartItem) {
    a.id != b.id && !(a.cartId == b.cartId && a.productId == b.productId)
  }

  predicate ValidItems(items: seq<CartItem>) {
    Tables.Pairwise(items, ItemsApart)
  }

  predicate ItemIdTaken(items: seq<CartItem>, id: Id) {
    exists x :: x in items && x.id == id
  }

  /** findByCartAndProduct. */
  function FindLine(items: seq<CartItem>, cartId: Id, productId: Id): (r: Option<CartItem>)
    ensures r.Some? ==> r.value in items && r.value.cartId == cartId && r.value.productId == productId
    ensures r.None? <==> forall x :: x in items ==> !(x.cartId == cartId && x.productId == productId)
  {
    Tables.FindFirst(items, (x: CartItem) => x.cartId == cartId && x.productId == productId)
  }

  /** A line changed in place: its id, its cart and its product stay. */
  predicate SameLine(a: CartItem, b: CartItem) {
    a.id == b.id && a.cartId == b.cartId && a.productId == b.productId
  }

  /** Saving the line with that id after `f`. */
  function SaveLine(items: seq<CartItem>, id: Id, f: CartItem -> CartItem): seq<CartItem> {
    Tables.UpdateWhere(items, (x: CartItem) => x.id == id, f)
  }

  /** The merge on add: the quantity grows and the total takes the current price. */
  function Merge(item: CartItem, quantity: int, price: Cents): (r: CartItem)
    ensures SameLine(r, item) && r.variantId == item.variantId && r.talla == item.talla
    ensures r.quantity == item.quantity + quantity && r.price == item.price && r.discount == item.discount
    ensures r.total == ItemTotal(r.quantity, price, r.discount)
    ensures price == item.price ==> Consistent(r)
  {
    item.(quantity := item.quantity + quantity, total := ItemTotal(item.quantity + quantity, price, item.discount))
  }

  /** updateItem's edit: the quantity is replaced and the price refreshed. */
  function Requantify(item: CartItem, quantity: int, price: Cents): (r: CartItem)
    ensures SameLine(r, item) && r.variantId == item.variantId && r.talla == item.talla
    ensures r.quantity == quantity && r.price == price && r.discount == item.discount
    ensures Consistent(r)
  {
    item.(quantity := quantity, price := price, total := ItemTotal(quantity, price, item.discount))
  }

  /**
   * The new line as addItem writes it: the variant and the size sent by the client are not
   * copied, so both columns stay null.
   */
  function NewLineAsWritten(id: Id, cartId: Id, productId: Id, quantity: int, price: Cents): (item: CartItem)
    ensures item.variantId.None? && item.talla.None? && Consistent(item)
  {
    CartItem(id, cartId, productId, None, None, quantity, price, 0, ItemTotal(quantity, price, 0))
  }

  /** A new line: the product at its current price, no discount, in the variant and size chosen. */
  function NewLine(id: Id, cartId: Id, productId: Id, variantId: Id, talla: string, quantity: int, price: Cents): (item: CartItem)
    ensures item.id == id && item.cartId == cartId && item.productId == productId
    ensures item.variantId == Some(variantId) && item.talla == Some(talla)
    ensures item.quantity == quantity && item.price == price && item.discount == 0
    ensures Consistent(item)
  {
    CartItem(id, cartId, productId, Some(variantId), Some(talla), quantity, price, 0, ItemTotal(quantity, price, 0))
  }

  /**
   * addItem's write to cart_items: merge into the cart's line for the product, or add a new
   * line; a taken id for the new line is a database error.
   */
  function AddLine(items: seq<CartItem>, cartId: Id, productId: Id, variantId: Id, talla: string,
                   quantity: int, price: Cents, newItemId: Id): (r: Result<seq<CartItem>, Exception>)
    ensures r.Failure? <==> FindLine(items, cartId, productId).None? && ItemIdTaken(items, newItemId)
    ensures r.Failure? ==> r.error == DuplicateEntry
    ensures r.Success? && FindLine(items, cartId, productId).Some? ==> |r.value| == |items|
    ensures r.Success? && FindLine(items, cartId, productId).None? ==>
              r.value == items + [NewLine(newItemId, cartId, productId, variantId, talla, quantity, price)]
  {
    match FindLine(items, cartId, productId)
    case Some(line) => Success(SaveLine(items, line.id, (x: CartItem) => Merge(x, quantity, price)))
    case None =>
      if ItemIdTaken(items, newItemId) then Failure(DuplicateEntry)
      else Success(items + [NewLine(newItemId, cartId, productId, variantId, talla, quantity, price)])
  }

  /** Saving a line in place keeps the table valid, and the one line of its cart and product is the saved one. */
  lemma SaveLineSpec(items: seq<CartItem>, line: CartItem, f: CartItem -> CartItem)
    requires ValidItems(items) && line in items
    requires forall x :: SameLine(f(x), x)
    ensures ValidItems(SaveLine(items, line.id, f))
    ensures FindLine(SaveLine(items, line.id, f), line.cartId, line.productId) == Some(f(line))
  {
    var r := SaveLine(items, line.id, f);
    Tables.UpdateWhereKeepsPairwise(items, (x: CartItem) => x.id == line.id, f, ItemsApart);
    var k :| 0 <= k < |items| && items[k] == line;
    assert r[k] == f(line);
    var found := FindLine(r, line.cartId, line.productId);
    assert found.Some? by {
      assert r[k] in r;
    }
    forall j | 0 <= j < |r| && j != k ensures !(r[j].cartId == line.cartId && r[j].productId == line.productId) {
      if j < k {
        assert ItemsApart(items[j], items[k]);
      } else {
        assert ItemsApart(items[k], items[j]);
      }
    }
  }

  /**
   * addItem on the lines: the write fails only for a new line whose id is taken; otherwise
   * the table stays valid and the cart's line for the product is the old one merged, or the
   * new line appended after every other.
   */
  lemma AddLineSpec(items: seq<CartItem>, cartId: Id, productId: Id, variantId: Id, talla: string,
                    quantity: int, price: Cents, newItemId: Id)
    requires ValidItems(items)
    ensures var r := AddLine(items, cartId, productId, variantId, talla, quantity, price, newItemId);
            var before := FindLine(items, cartId, productId);
            var n := NewLine(newItemId, cartId, productId, variantId, talla, quantity, price);
            && (r.Failure? <==> before.None? && ItemIdTaken(items, newItemId))
            && (r.Failure? ==> r.error == DuplicateEntry)
            && (r.Success? ==>
                  && ValidItems(r.value)
                  && FindLine(r.value, cartId, productId) ==
                       Some(if before.Some? then Merge(before.value, quantity, price) else n))
            && (r.Success? && before.None? ==> r.value == items + [n])
  {
    var before := FindLine(items, cartId, productId);
    match before
    case Some(line) =>
      SaveLineSpec(items, line, (x: CartItem) => Merge(x, quantity, price));
    case None =>
      if !ItemIdTaken(items, newItemId) {
        AppendLineSpec(items, NewLine(newItemId, cartId, productId, variantId, talla, quantity, price));
      }
  }

  /**
   * After addItem the cart's line for the product holds the added quantity on top of what it
   * held (nothing when there was no line), and its total is at the current price, keeping the
   * line's discount (none for a new line).
   */
  lemma AddedLineQuantity(items: seq<CartItem>, cartId: Id, productId: Id, variantId: Id, talla: string,
                          quantity: int, price: Cents, newItemId: Id)
    requires ValidItems(items)
    requires AddLine(items, cartId, productId, variantId, talla, quantity, price, newItemId).Success?
    ensures var r := AddLine(items, cartId, productId, variantId, talla, quantity, price, newItemId).value;
            var before := FindLine(items, cartId, productId);
            && FindLine(r, cartId, productId).Some?
            && FindLine(r, cartId, productId).value.quantity == quantity + (if before.Some? then before.value.quantity else 0)
            && FindLine(r, cartId, productId).value.total ==
                 ItemTotal(FindLine(r, cartId, productId).value.quantity, price, if before.Some? then before.value.discount else 0)
  {
    AddLineSpec(items, cartId, productId, variantId, talla, quantity, price, newItemId);
    var r := AddLine(items, cartId, productId, variantId, talla, quantity, price, newItemId).value;
    match FindLine(items, cartId, productId)
    case Some(line) =>
      var m := Merge(line, quantity, price);
      assert FindLine(r, cartId, productId) == Some(m);
      assert m.total == ItemTotal(m.quantity, price, line.discount);
    case None =>
      var n := NewLine(newItemId, cartId, productId, variantId, talla, quantity, price);
      assert FindLine(r, cartId, productId) == Some(n);
      assert n.total == ItemTotal(n.quantity, price, 0);
  }

  /** Appending a line with a new id for a cart and product without one keeps the table valid and is found. */
  lemma AppendLineSpec(items: seq<CartItem>, n: CartItem)
    requires ValidItems(items) && !ItemIdTaken(items, n.id) && FindLine(items, n.cartId, n.productId).None?
    ensures ValidItems(items + [n])
    ensures FindLine(items + [n], n.cartId, n.productId) == Some(n)
  {
    var r := items + [n];
    forall i, j | 0 <= i < j < |r| ensures ItemsApart(r[i], r[j]) {
      if j == |items| {
        assert r[i] in items;
      } else {
        assert ItemsApart(items[i], items[j]);
      }
    }
    var found := FindLine(r, n.cartId, n.productId);
    assert n in r;
    assert found.value !in items;
  }

  /** Adding twice at one price is adding the sum once. */
  lemma MergeTwice(item: CartItem, a: int, b: int, price: Cents)
    ensures Merge(Merge(item, a, price), b, price) == Merge(item, a + b, price)
  {
  }

  /**
   * updateItem on the lines: the line ends up with exactly the given quantity, the current
   * price and a consistent total.
   */
  lemma RequantifySpec(items: seq<CartItem>, line: CartItem, quantity: int, price: Cents)
    requires ValidItems(items) && line in items
    ensures var r := SaveLine(items, line.id, (x: CartItem) => Requantify(x, quantity, price));
            && ValidItems(r)
            && FindLine(r, line.cartId, line.productId).Some?
            && FindLine(r, line.cartId, line.productId).value.quantity == quantity
            && FindLine(r, line.cartId, line.productId).value.price == price
            && Consistent(FindLine(r, line.cartId, line.productId).value)
  {
    SaveLineSpec(items, line, (x: CartItem) => Requantify(x, quantity, price));
  }

  /** removeItem's delete: by id, in whichever cart the line is. */
  function WithoutItem(items: seq<CartItem>, itemId: Id): (r: seq<CartItem>)
    ensures forall x :: x in r <==> x in items && x.id != itemId
  {
    Tables.Filter(items, (x: CartItem) => x.id != itemId)
  }

  /** deleteByCartId. */
  function WithoutLinesOf(items: seq<CartItem>, cartId: Id): (r: seq<CartItem>)
    ensures forall x :: x in r <==> x in items && x.cartId != cartId
  {
    Tables.Filter(items, (x: CartItem) => x.cartId != cartId)
  }

  /** A cleared cart has no lines left, so its recomputed totals are zero. */
  lemma ClearedCartIsEmpty(items: seq<CartItem>, cartId: Id)
    ensures LinesOf(WithoutLinesOf(items, cartId), cartId) == []
    ensures Subtotal(LinesOf(WithoutLinesOf(items, cartId), cartId)) == 0
    ensures DiscountTotal(LinesOf(WithoutLinesOf(items, cartId), cartId)) == 0
  {
    var lines := LinesOf(WithoutLinesOf(items, cartId), cartId);
    assert Tables.Count(WithoutLinesOf(items, cartId), (x: CartItem) => x.cartId == cartId) == |lines|;
  }

  /** A removed line is gone from every cart, and every other line stays. */
  lemma WithoutItemSpec(items: seq<CartItem>, itemId: Id)
    ensures forall x :: x in WithoutItem(items, itemId) <==> x in items && x.id != itemId
  {
  }

  /** deleteCart's delete. */
  function WithoutCart(carts: seq<Cart>, id: Id): seq<Cart> {
    Tables.Filter(carts, (x: Cart) => x.id != id)
  }

  // ---------------------------------------------------------------------------------------
  // The as-written unique session column

  /** As written: `sessionId` is a unique column, so a new cart may share no session with any row. */
  function InsertAsWritten(carts: seq<Cart>, c: Cart): (o: CartOutcome)
    ensures o.result.Success? <==> forall x :: x in carts ==> x.id != c.id && x.sessionId != c.sessionId
    ensures o.result.Success? ==> o == CartOutcome(carts + [c], Success(c))
    ensures o.result.Failure? ==> o == CartOutcome(carts, Failure(DuplicateEntry))
  {
    if exists x :: x in carts && (x.id == c.id || x.sessionId == c.sessionId) then CartOutcome(carts, Failure(DuplicateEntry))
    else CartOutcome(carts + [c], Success(c))
  }

  /** getOrCreateCart against the unique `sessionId` column. */
  function GetOrCreateAsWritten(carts: seq<Cart>, sessionId: string, newId: Id, now: Time): (o: CartOutcome)
    ensures o.result.Success? ==> o.result.value.sessionId == sessionId && o.result.value.status == Active
    ensures o.result.Success? ==> now <= o.result.value.expiresAt || o.result.value == NewCart(newId, sessionId, now)
    ensures o.result.Failure? ==> o.result.error == DuplicateEntry
  {
    match ActiveCart(carts, sessionId)
    case Some(c) =>
      if now > c.expiresAt then InsertAsWritten(Abandon(carts, c.id), NewCart(newId, sessionId, now))
      else CartOutcome(carts, Success(c))
    case None => InsertAsWritten(carts, NewCart(newId, sessionId, now))
  }

  /**
   * Once a session's cart expires, the unique column makes every later call fail: the expired
   * cart is saved as abandoned, the new one cannot be inserted, and the next call, finding no
   * active cart, fails the same way.
   */
  lemma ExpiredSessionStuckAsWritten()
    ensures var carts := [Cart("c1", "s1", Active, 0, 0, 0, 0)];
            var o := GetOrCreateAsWritten(carts, "s1", "c2", 1);
            && o == CartOutcome([Cart("c1", "s1", Abandoned, 0, 0, 0, 0)], Failure(DuplicateEntry))
            && GetOrCreateAsWritten(o.carts, "s1", "c3", 2).result == Failure(DuplicateEntry)
    ensures GetOrCreate([Cart("c1", "s1", Active, 0, 0, 0, 0)], "s1", "c2", 1).result == Success(NewCart("c2", "s1", 1))
  {
    var carts := [Cart("c1", "s1", Active, 0, 0, 0, 0)];
    var a := Abandon(carts, "c1");
    assert a == [Cart("c1", "s1", Abandoned, 0, 0, 0, 0)];
    assert ActiveCart(carts, "s1") == Some(carts[0]);
    assert a[0] in a;
    assert ActiveCart(a, "s1").None?;
    GetOrCreateReplacesExpired(carts, "s1", "c2", 1);
  }

  // ---------------------------------------------------------------------------------------
  // The service

  class CartService {
    var carts: seq<Cart>
    var items: seq<CartItem>

    predicate Valid()
      reads this
    {
      ValidCarts(carts) && ValidItems(items)
    }

    constructor(carts0: seq<Cart>, items0: seq<CartItem>)
      requires ValidCarts(carts0) && ValidItems(items0)
      ensures carts == carts0 && items == items0 && Valid()
    {
      carts := carts0;
      items := items0;
    }

    /** getOrCreateCart (getCart answers the same). */
    method GetOrCreateCart(sessionId: string, newId: Id, now: Time) returns (r: Result<Cart, Exception>)
      requires Valid()
      modifies this
      ensures Valid() && items == old(items)
      ensures CartOutcome(carts, r) == GetOrCreate(old(carts), sessionId, newId, now)
    {
      GetOrCreateKeepsValid(carts, sessionId, newId, now);
      var cart := ActiveCart(carts, sessionId);
      if cart.Some? && now > cart.value.expiresAt {
        carts := Abandon(carts, cart.value.id);
        cart := None;
      }
      if cart.None? {
        var created := NewCart(newId, sessionId, now);
        if CartIdTaken(carts, created.id) {
          return Failure(DuplicateEntry);
        }
        carts := carts + [created];
        return Success(created);
      }
      return Success(cart.value);
    }

    /** The loop of updateCartTotals: Σ price·qty and Σ discount·qty over the lines. */
    static method SumLines(lines: seq<CartItem>) returns (subtotal: int, discountTotal: int)
      ensures subtotal == Subtotal(lines) && discountTotal == DiscountTotal(lines)
    {
      subtotal := 0;
      discountTotal := 0;
      var i := 0;
      while i < |lines|
        invariant 0 <= i <= |lines|
        invariant subtotal == Subtotal(lines[..i])
        invariant discountTotal == DiscountTotal(lines[..i])
      {
        assert lines[..i + 1][..i] == lines[..i];
        subtotal := subtotal + lines[i].price * lines[i].quantity;
        discountTotal := discountTotal + lines[i].discount * lines[i].quantity;
        i := i + 1;
      }
      assert lines[..i] == lines;
    }

    /** updateCartTotals: the sum over the cart's lines, then the save. */
    method UpdateCartTotals(cartId: Id, now: Time) returns (r: Result<Cart, Exception>)
      requires Valid()
      modifies this
      ensures Valid() && items == old(items)
      ensures CartOutcome(carts, r) == RecomputeTotals(old(carts), items, cartId, now)
    {
      RecomputeKeepsValid(carts, items, cartId, now);
      ghost var expected := RecomputeTotals(carts, items, cartId, now);
      var cart := Tables.FindFirst(carts, (x: Cart) => x.id == cartId);
      if cart.None? {
        return Failure(NotFound("Cart not found"));
      }
      var lines := LinesOf(items, cartId);
      assert expected == CartOutcome(SaveTotals(carts, cartId, Subtotal(lines), DiscountTotal(lines), now),
                                     Success(WithTotals(cart.value, Subtotal(lines), DiscountTotal(lines), now)));
      var subtotal, discountTotal := SumLines(lines);
      carts := SaveTotals(carts, cartId, subtotal, discountTotal, now);
      return Success(WithTotals(cart.value, subtotal, discountTotal, now));
    }

    /**
     * addItem: the session's cart, then NotFound for an unknown product and BadRequest for an
     * inactive one, then the merge or the new line, then the totals. A write done before a
     * failure stays done.
     */
    method AddItem(sessionId: string, productId: Id, variantId: Id, talla: string, quantity: int,
                   products: seq<Product>, newCartId: Id, newItemId: Id, now: Time)
      returns (r: Result<Cart, Exception>)
      requires Valid()
      modifies this
      ensures Valid()
      ensures var o := GetOrCreate(old(carts), sessionId, newCartId, now);
              var product := ProductRepository.FindById(products, productId);
              if o.result.Failure? then r == o.result && carts == o.carts && items == old(items)
              else if product.None? then
                r == Failure(NotFound("Product not found")) && carts == o.carts && items == old(items)
              else if !product.value.active then
                r == Failure(BadRequest("Product is not available")) && carts == o.carts && items == old(items)
              else
                var added := AddLine(old(items), o.result.value.id, productId, variantId, talla, quantity,
                                     product.value.price, newItemId);
                if added.Failure? then r == Failure(added.error) && carts == o.carts && items == old(items)
                else items == added.value && CartOutcome(carts, r) == RecomputeTotals(o.carts, items, o.result.value.id, now)
    {
      var cart := GetOrCreateCart(sessionId, newCartId, now);
      if cart.Failure? {
        return cart;
      }
      var product := ProductRepository.FindById(products, productId);
      if product.None? {
        return Failure(NotFound("Product not found"));
      }
      if !product.value.active {
        return Failure(BadRequest("Product is not available"));
      }
      var price := product.value.price;
      AddLineSpec(items, cart.value.id, productId, variantId, talla, quantity, price, newItemId);
      var line := FindLine(items, cart.value.id, productId);
      if line.Some? {
        items := SaveLine(items, line.value.id, (x: CartItem) => Merge(x, quantity, price));
      } else {
        if ItemIdTaken(items, newItemId) {
          return Failure(DuplicateEntry);
        }
        items := items + [NewLine(newItemId, cart.value.id, productId, variantId, talla, quantity, price)];
      }
      r := UpdateCartTotals(cart.value.id, now);
    }

    /**
     * updateItem: the line is looked up by the cart and the given id taken as a product id;
     * NotFound when there is none, BadRequest when the product is gone or inactive; otherwise
     * the quantity is replaced and the price refreshed, then the totals.
     */
    method UpdateItem(sessionId: string, itemId: Id, quantity: int, products: seq<Product>, newCartId: Id, now: Time)
      returns (r: Result<Cart, Exception>)
      requires Valid()
      modifies this
      ensures Valid()
      ensures var o := GetOrCreate(old(carts), sessionId, newCartId, now);
              if o.result.Failure? then r == o.result && carts == o.carts && items == old(items)
              else
                var line := FindLine(old(items), o.result.value.id, itemId);
                if line.None? then
                  r == Failure(NotFound("Item not found in cart")) && carts == o.carts && items == old(items)
                else
                  var product := ProductRepository.FindById(products, line.value.productId);
                  if product.None? || !product.value.active then
                    r == Failure(BadRequest("Product is no longer available")) && carts == o.carts && items == old(items)
                  else
                    && items == SaveLine(old(items), line.value.id, (x: CartItem) => Requantify(x, quantity, product.value.price))
                    && CartOutcome(carts, r) == RecomputeTotals(o.carts, items, o.result.value.id, now)
    {
      var cart := GetOrCreateCart(sessionId, newCartId, now);
      if cart.Failure? {
        return cart;
      }
      var line := FindLine(items, cart.value.id, itemId);
      if line.None? {
        return Failure(NotFound("Item not found in cart"));
      }
      var product := ProductRepository.FindById(products, line.value.productId);
      if product.None? || !product.value.active {
        return Failure(BadRequest("Product is no longer available"));
      }
      var price := product.value.price;
      SaveLineSpec(items, line.value, (x: CartItem) => Requantify(x, quantity, price));
      items := SaveLine(items, line.value.id, (x: CartItem) => Requantify(x, quantity, price));
      r := UpdateCartTotals(cart.value.id, now);
    }

    /** removeItem: the line with that id is deleted, whichever cart holds it, then the totals. */
    method RemoveItem(sessionId: string, itemId: Id, newCartId: Id, now: Time) returns (r: Result<Cart, Exception>)
      requires Valid()
      modifies this
      ensures Valid()
      ensures var o := GetOrCreate(old(carts), sessionId, newCartId, now);
              if o.result.Failure? then r == o.result && carts == o.carts && items == old(items)
              else
                && items == WithoutItem(old(items), itemId)
                && CartOutcome(carts, r) == RecomputeTotals(o.carts, items, o.result.value.id, now)
    {
      var cart := GetOrCreateCart(sessionId, newCartId, now);
      if cart.Failure? {
        return cart;
      }
      Tables.FilterKeepsPairwise(items, (x: CartItem) => x.id != itemId, ItemsApart);
      items := WithoutItem(items, itemId);
      r := UpdateCartTotals(cart.value.id, now);
    }

    /** clearCart: every line of the session's cart is deleted, then the totals (zero). */
    method ClearCart(sessionId: string, newCartId: Id, now: Time) returns (r: Result<Cart, Exception>)
      requires Valid()
      modifies this
      ensures Valid()
      ensures var o := GetOrCreate(old(carts), sessionId, newCartId, now);
              if o.result.Failure? then r == o.result && carts == o.carts && items == old(items)
              else
                && items == WithoutLinesOf(old(items), o.result.value.id)
                && CartOutcome(carts, r) == RecomputeTotals(o.carts, items, o.result.value.id, now)
    {
      var cart := GetOrCreateCart(sessionId, newCartId, now);
      if cart.Failure? {
        return cart;
      }
      Tables.FilterKeepsPairwise(items, (x: CartItem) => x.cartId != cart.value.id, ItemsApart);
      items := WithoutLinesOf(items, cart.value.id);
      r := UpdateCartTotals(cart.value.id, now);
    }

    /** deleteCart: the session's active cart, if any, is deleted; nothing is created. */
    method DeleteCart(sessionId: string)
      requires Valid()
      modifies this
      ensures Valid() && items == old(items)
      ensures carts == match ActiveCart(old(carts), sessionId)
                       case Some(c) => WithoutCart(old(carts), c.id)
                       case None => old(carts)
    {
      var cart := ActiveCart(carts, sessionId);
      if cart.Some? {
        Tables.FilterKeepsPairwise(carts, (x: Cart) => x.id != cart.value.id, CartsApart);
        carts := WithoutCart(carts, cart.value.id);
      }
    }
  }
}
