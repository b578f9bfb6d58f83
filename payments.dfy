/**
 * PaymentService: the Wompi configuration, the checkout that rebuilds the cart at current
 * prices and stores a PENDING order, and the status writes that reconcile an order with the
 * gateway. The orders table is a field of the service; the carts go through the cart
 * service, and the products table is read through a parameter.
 */
module Payments {
  import opened Wrappers
  import opened Text
  import opened Errors
  import opened Entities
  import Tables
  import Integrity
  import Carts
  import ProductRepository

  /** The only currency the shop charges in. */
  const Currency: string := "COP"

  /** The phone prefix and the country every checkout is stamped with (Colombia). */
  const PhonePrefix: string := "57"
  const Country: string := "CO"

  /** A minute, in milliseconds; a checkout order expires fifteen minutes after it is made. */
  const MinuteMs: int := 60000
  const OrderExpirationMinutes: int := 15

  const UnexpectedCheckoutError: string := "Unexpected error creating payment session. Please try again."

  // ---------------------------------------------------------------------------------------
  // Configuration

  /** The Wompi settings read from the environment. */
  datatype WompiConfig = WompiConfig(
    publicKey: string, privateKey: Option<string>, integritySecret: string, baseUrl: string,
    redirectUrl: Option<string>)

  /**
   * The constructor's reading of the environment: the public key, the integrity secret and
   * the base URL must all be non-empty; the private key and the redirect URL may be absent.
   */
  function LoadConfig(publicKey: Option<string>, privateKey: Option<string>, integritySecret: Option<string>,
                      baseUrl: Option<string>, redirectUrl: Option<string>): (r: Result<WompiConfig, Exception>)
    ensures r.Success? <==> TruthyText(publicKey) && TruthyText(integritySecret) && TruthyText(baseUrl)
    ensures r.Success? ==>
              && Some(r.value.publicKey) == publicKey && Some(r.value.integritySecret) == integritySecret
              && Some(r.value.baseUrl) == baseUrl
              && r.value.privateKey == privateKey && r.value.redirectUrl == redirectUrl
    ensures r.Failure? ==> r.error == Other("Wompi configuration is missing. Check environment variables.")
  {
    if !TruthyText(publicKey) || !TruthyText(integritySecret) || !TruthyText(baseUrl) then
      Failure(Other("Wompi configuration is missing. Check environment variables."))
    else
      Success(WompiConfig(publicKey.value, privateKey, integritySecret.value, baseUrl.value, redirectUrl))
  }

  /** A configuration the constructor accepts. */
  predicate Usable(config: WompiConfig) {
    |config.publicKey| > 0 && |config.integritySecret| > 0 && |config.baseUrl| > 0
  }

  /** Every configuration LoadConfig hands out is usable, and every usable one can be loaded. */
  lemma LoadConfigUsable(config: WompiConfig)
    ensures Usable(config) <==>
              LoadConfig(Some(config.publicKey), config.privateKey, Some(config.integritySecret),
                         Some(config.baseUrl), config.redirectUrl) == Success(config)
  {
  }

  // ---------------------------------------------------------------------------------------
  // The snapshot of one cart line

  /**
   * The variants of the product as findOne hands them back: null when the column is null or
   * an empty list. A variant stored with an empty id is handed back under a fresh id, which no
   * cart line names.
   */
  function DtoVariables(p: Product): (r: Option<seq<Variable>>)
    ensures r.None? <==> p.variables.None? || |p.variables.value| == 0
    ensures r.Some? ==> r == p.variables
  {
    if p.variables.Some? && |p.variables.value| > 0 then p.variables else None
  }

  /** A handed-back variant answers to a line's variant id: a real id, and the same one. */
  predicate Names(v: Variable, variantId: Option<Id>) {
    v.variantId != "" && variantId == Some(v.variantId)
  }

  /** How a missing variant id reads in a message: `null`. */
  function Rendered(variantId: Option<Id>): string {
    if variantId.Some? then variantId.value else "null"
  }

  /**
   * One round of the checkout loop: the product is looked up active or not (BadRequest when
   * missing, BadRequest when inactive); its variants are searched for the line's variant (a
   * TypeError when findOne gave none, BadRequest when none matches); the line is then priced
   * at the product's current price, with the line's own quantity and discount.
   */
  function SnapLine(item: CartItem, products: seq<Product>): (r: Result<SnapshotItem, Exception>)
    ensures r.Failure? ==> r.error.BadRequest? || r.error == TypeError
    ensures r.Success? ==> && r.value.productId == item.productId && r.value.quantity == item.quantity
                           && r.value.discount == item.discount
                           && r.value.total == Carts.ItemTotal(r.value.quantity, r.value.price, r.value.discount)
  {
    match ProductRepository.FindById(products, item.productId)
    case None => Failure(BadRequest("Product " + item.productId + " not found"))
    case Some(p) =>
      if !p.active then Failure(BadRequest("Product " + p.name + " is not available"))
      else match DtoVariables(p)
        case None => Failure(TypeError)
        case Some(vs) =>
          match Tables.FindFirst(vs, (v: Variable) => Names(v, item.variantId))
          case None => Failure(BadRequest("Variant " + Rendered(item.variantId) + " not found in product " + p.name))
          case Some(v) =>
            Success(SnapshotItem(item.productId, item.variantId, item.talla, item.quantity, p.price,
                                 item.discount, Carts.ItemTotal(item.quantity, p.price, item.discount),
                                 p.name, v.colorId))
  }

  /**
   * One line's snapshot, case by case: a missing product, an inactive one, a product without
   * variants and a variant that is not there each give their own error; a line that passes is
   * copied with the product's current price, name and the variant's colour.
   */
  lemma SnapLineSpec(item: CartItem, products: seq<Product>)
    ensures var r := SnapLine(item, products);
            r.Success? ==>
              var p := ProductRepository.FindById(products, item.productId);
              && p.Some? && p.value.active && DtoVariables(p.value).Some?
              && (exists v :: v in DtoVariables(p.value).value && Names(v, item.variantId))
              && r.value.productId == item.productId && r.value.variantId == item.variantId
              && r.value.talla == item.talla && r.value.quantity == item.quantity
              && r.value.price == p.value.price && r.value.discount == item.discount
              && r.value.total == Carts.ItemTotal(item.quantity, p.value.price, item.discount)
              && r.value.productName == p.value.name
    ensures ProductRepository.FindById(products, item.productId).None? ==>
              SnapLine(item, products) == Failure(BadRequest("Product " + item.productId + " not found"))
    ensures var p := ProductRepository.FindById(products, item.productId);
            p.Some? && !p.value.active ==> SnapLine(item, products) == Failure(BadRequest("Product " + p.value.name + " is not available"))
    ensures var p := ProductRepository.FindById(products, item.productId);
            p.Some? && p.value.active && DtoVariables(p.value).None? ==> SnapLine(item, products) == Failure(TypeError)
    ensures var p := ProductRepository.FindById(products, item.productId);
            (p.Some? && p.value.active && DtoVariables(p.value).Some? &&
             forall v :: v in DtoVariables(p.value).value ==> !Names(v, item.variantId)) ==>
              SnapLine(item, products) == Failure(BadRequest("Variant " + Rendered(item.variantId) + " not found in product " + p.value.name))
  {
  }

  /** The lines snapshotted one by one by `snap`, in order; the first line that fails stops the loop. */
  function Collect(lines: seq<CartItem>, snap: CartItem -> Result<SnapshotItem, Exception>): (r: Result<seq<SnapshotItem>, Exception>)
    ensures r.Success? ==> |r.value| == |lines|
  {
    if |lines| == 0 then Success([])
    else match Collect(lines[..|lines| - 1], snap)
      case Failure(e) => Failure(e)
      case Success(init) =>
        match snap(lines[|lines| - 1])
        case Failure(e) => Failure(e)
        case Success(item) => Success(init + [item])
  }

  /** The snapshot of one line against the catalogue, as a function of the line. */
  function SnapLineOf(products: seq<Product>): CartItem -> Result<SnapshotItem, Exception> {
    (item: CartItem) => SnapLine(item, products)
  }

  /** The snapshot of the lines, in order; the first line that fails stops the loop. */
  function Snapshot(lines: seq<CartItem>, products: seq<Product>): (r: Result<seq<SnapshotItem>, Exception>)
    ensures r.Success? ==> |r.value| == |lines|
  {
    Collect(lines, SnapLineOf(products))
  }

  /** The sum of price × quantity over the snapshot. */
  function SnapSubtotal(items: seq<SnapshotItem>): Cents {
    if |items| == 0 then 0
    else SnapSubtotal(items[..|items| - 1]) + items[|items| - 1].price * items[|items| - 1].quantity
  }

  /** The sum of discount × quantity over the snapshot. */
  function SnapDiscount(items: seq<SnapshotItem>): Cents {
    if |items| == 0 then 0
    else SnapDiscount(items[..|items| - 1]) + items[|items| - 1].discount * items[|items| - 1].quantity
  }

  /** The sum of the snapshot's line totals. */
  function SnapLineTotals(items: seq<SnapshotItem>): Cents {
    if |items| == 0 then 0 else SnapLineTotals(items[..|items| - 1]) + items[|items| - 1].total
  }

  /** The traversal succeeds exactly when every line passes. */
  lemma {:induction false} CollectSpec(lines: seq<CartItem>, snap: CartItem -> Result<SnapshotItem, Exception>)
    ensures Collect(lines, snap).Success? <==> forall i :: 0 <= i < |lines| ==> snap(lines[i]).Success?
  {
    if |lines| > 0 {
      var n := |lines| - 1;
      var init := lines[..n];
      CollectSpec(init, snap);
      assert forall i :: 0 <= i < n ==> init[i] == lines[i];
      if Collect(init, snap).Failure? {
        var k :| 0 <= k < n && snap(init[k]).Failure?;
        assert snap(lines[k]).Failure?;
      }
    }
  }

  /** The snapshot succeeds exactly when every line passes. */
  lemma SnapshotSpec(lines: seq<CartItem>, products: seq<Product>)
    ensures Snapshot(lines, products).Success? <==> forall i :: 0 <= i < |lines| ==> SnapLine(lines[i], products).Success?
  {
    CollectSpec(lines, SnapLineOf(products));
  }

  /** A traversal that succeeds holds, at each position, what `snap` made of that line. */
  lemma {:induction false} CollectEntries(lines: seq<CartItem>, snap: CartItem -> Result<SnapshotItem, Exception>)
    requires Collect(lines, snap).Success?
    ensures forall i :: 0 <= i < |lines| ==> snap(lines[i]) == Success(Collect(lines, snap).value[i])
  {
    if |lines| > 0 {
      var n := |lines| - 1;
      var init := lines[..n];
      CollectEntries(init, snap);
      var head := Collect(init, snap).value;
      var s := head + [snap(lines[n]).value];
      assert Collect(lines, snap).value == s;
      forall i | 0 <= i < n ensures snap(lines[i]) == Success(s[i]) {
        assert s[i] == head[i] && init[i] == lines[i];
      }
    }
  }

  /** A snapshot that succeeds holds, at each position, the snapshot of that line. */
  lemma SnapshotEntries(lines: seq<CartItem>, products: seq<Product>)
    requires Snapshot(lines, products).Success?
    ensures forall i :: 0 <= i < |lines| ==> SnapLine(lines[i], products) == Success(Snapshot(lines, products).value[i])
  {
    CollectEntries(lines, SnapLineOf(products));
  }

  /** When the lines up to `k` already fail, the whole traversal fails with the same error. */
  lemma {:induction false} CollectFailurePersists(lines: seq<CartItem>, k: nat, snap: CartItem -> Result<SnapshotItem, Exception>)
    requires k <= |lines| && Collect(lines[..k], snap).Failure?
    ensures Collect(lines, snap) == Collect(lines[..k], snap)
    decreases |lines| - k
  {
    if k == |lines| {
      assert lines[..k] == lines;
    } else {
      assert lines[..k + 1][..k] == lines[..k];
      CollectFailurePersists(lines, k + 1, snap);
    }
  }

  /** A snapshot line whose total is quantity × (price − discount). */
  predicate SnapConsistent(l: SnapshotItem) {
    l.total == Carts.ItemTotal(l.quantity, l.price, l.discount)
  }

  /** Over consistent lines, subtotal minus discount total is the sum of the line totals. */
  lemma {:induction false} ConsistentTotals(items: seq<SnapshotItem>)
    requires forall i :: 0 <= i < |items| ==> SnapConsistent(items[i])
    ensures SnapSubtotal(items) - SnapDiscount(items) == SnapLineTotals(items)
  {
    if |items| > 0 {
      var n := |items| - 1;
      assert forall i :: 0 <= i < n ==> items[..n][i] == items[i];
      ConsistentTotals(items[..n]);
      assert SnapConsistent(items[n]);
      Distribute(items[n].quantity, items[n].price, items[n].discount);
    }
  }

  /** Every snapshot line's total is quantity × (price − discount), so the amount is their sum. */
  lemma SnapshotAmountIsSumOfLineTotals(lines: seq<CartItem>, products: seq<Product>)
    requires Snapshot(lines, products).Success?
    ensures var s := Snapshot(lines, products).value;
            SnapSubtotal(s) - SnapDiscount(s) == SnapLineTotals(s)
  {
    var s := Snapshot(lines, products).value;
    SnapshotEntries(lines, products);
    forall i | 0 <= i < |s| ensures SnapConsistent(s[i]) {
      SnapLineSpec(lines[i], products);
    }
    ConsistentTotals(s);
  }

  /** q·(p − d) = p·q − d·q. */
  lemma Distribute(q: int, p: int, d: int)
    ensures q * (p - d) == p * q - d * q
  {
  }

  /**
   * The loop of createCheckout: each line in turn is snapshotted and its price × quantity
   * and discount × quantity are added up; the first line that fails ends it.
   */
  method SnapshotLines(lines: seq<CartItem>, products: seq<Product>)
    returns (r: Result<seq<SnapshotItem>, Exception>, subtotal: Cents, discountTotal: Cents)
    ensures r == Snapshot(lines, products)
    ensures r.Success? ==> subtotal == SnapSubtotal(r.value) && discountTotal == SnapDiscount(r.value)
  {
    var items: seq<SnapshotItem> := [];
    subtotal, discountTotal := 0, 0;
    var i := 0;
    while i < |lines|
      invariant 0 <= i <= |lines|
      invariant Snapshot(lines[..i], products) == Success(items)
      invariant subtotal == SnapSubtotal(items) && discountTotal == SnapDiscount(items)
    {
      var item := lines[i];
      var line := SnapLine(item, products);
      CollectStep(lines, i, SnapLineOf(products));
      if line.Failure? {
        CollectFailurePersists(lines, i + 1, SnapLineOf(products));
        return Failure(line.error), subtotal, discountTotal;
      }
      SnapLinePrices(item, products);
      var currentPrice := ProductRepository.FindById(products, item.productId).value.price;
      SnapSumsStep(items, line.value);
      items := items + [line.value];
      subtotal := subtotal + currentPrice * item.quantity;
      discountTotal := discountTotal + item.discount * item.quantity;
      i := i + 1;
    }
    assert lines[..i] == lines;
    return Success(items), subtotal, discountTotal;
  }

  /** One more line: the traversal of the first i + 1 lines extends that of the first i. */
  lemma CollectStep(lines: seq<CartItem>, i: nat, snap: CartItem -> Result<SnapshotItem, Exception>)
    requires i < |lines|
    ensures var before := Collect(lines[..i], snap);
            Collect(lines[..i + 1], snap) ==
              if before.Failure? then before
              else if snap(lines[i]).Failure? then Failure(snap(lines[i]).error)
              else Success(before.value + [snap(lines[i]).value])
  {
    assert lines[..i + 1][..i] == lines[..i];
  }

  /** A line that passes is priced at the product's current price, with its own quantity and discount. */
  lemma SnapLinePrices(item: CartItem, products: seq<Product>)
    requires SnapLine(item, products).Success?
    ensures ProductRepository.FindById(products, item.productId).Some?
    ensures var l := SnapLine(item, products).value;
            && l.price == ProductRepository.FindById(products, item.productId).value.price
            && l.quantity == item.quantity && l.discount == item.discount
  {
  }

  /** The sums over a snapshot grow by the last line's price × quantity and discount × quantity. */
  lemma SnapSumsStep(items: seq<SnapshotItem>, l: SnapshotItem)
    ensures SnapSubtotal(items + [l]) == SnapSubtotal(items) + l.price * l.quantity
    ensures SnapDiscount(items + [l]) == SnapDiscount(items) + l.discount * l.quantity
  {
    assert (items + [l])[..|items|] == items;
  }

  /** From the lines to the order: the loop, the amount check, and the PENDING order. */
  method Place(lines: seq<CartItem>, products: seq<Product>, dto: CheckoutDto, reference: string, orderId: Id, now: Time)
    returns (r: Result<Order, Exception>)
    ensures r == PlaceOrder(lines, products, dto, reference, orderId, now)
  {
    var snap, subtotal, discountTotal := SnapshotLines(lines, products);
    if snap.Failure? {
      return Failure(snap.error);
    }
    var total := subtotal - discountTotal;
    if total <= 0 {
      return Failure(BadRequest("Invalid cart total amount"));
    }
    return Success(NewOrder(orderId, reference, total, dto, snap.value, now));
  }

  /** A line's stored price and stored total, which the snapshot never reads, blanked out. */
  function Unpriced(item: CartItem): CartItem {
    item.(price := 0, total := 0)
  }

  /**
   * Checkout charges the products' current prices: two carts that differ only in the prices
   * and totals their lines saved give the same snapshot.
   */
  lemma {:induction false} SnapshotIgnoresStoredPrices(a: seq<CartItem>, b: seq<CartItem>, products: seq<Product>)
    requires |a| == |b| && forall i :: 0 <= i < |a| ==> Unpriced(a[i]) == Unpriced(b[i])
    ensures Snapshot(a, products) == Snapshot(b, products)
  {
    if |a| > 0 {
      var n := |a| - 1;
      SnapshotIgnoresStoredPrices(a[..n], b[..n], products);
      assert Unpriced(a[n]) == Unpriced(b[n]);
      assert SnapLine(a[n], products) == SnapLine(b[n], products);
    }
  }

  /**
   * When no price has changed since the lines were saved, the snapshot's subtotal and
   * discount total are the cart's own.
   */
  lemma {:induction false} SnapshotMatchesCartWhenPricesHold(lines: seq<CartItem>, products: seq<Product>)
    requires Snapshot(lines, products).Success?
    requires forall i :: 0 <= i < |lines| ==>
               ProductRepository.FindById(products, lines[i].productId).Some? &&
               ProductRepository.FindById(products, lines[i].productId).value.price == lines[i].price
    ensures SnapSubtotal(Snapshot(lines, products).value) == Carts.Subtotal(lines)
    ensures SnapDiscount(Snapshot(lines, products).value) == Carts.DiscountTotal(lines)
  {
    if |lines| > 0 {
      var init := lines[..|lines| - 1];
      forall i | 0 <= i < |init|
        ensures ProductRepository.FindById(products, init[i].productId).Some? &&
                ProductRepository.FindById(products, init[i].productId).value.price == init[i].price
      {
        assert init[i] == lines[i];
      }
      SnapshotMatchesCartWhenPricesHold(init, products);
      var s := Snapshot(lines, products).value;
      assert s[..|s| - 1] == Snapshot(init, products).value;
    }
  }

  /**
   * A line that addItem as written stores, with neither variant nor size, can never be checked
   * out: the variant search fails, and the message names the variant `null`.
   */
  lemma AddedLineFailsCheckoutAsWritten(item: CartItem, products: seq<Product>, id: Id, cartId: Id, quantity: int)
    requires var p := ProductRepository.FindById(products, item.productId);
             p.Some? && p.value.active && DtoVariables(p.value).Some?
    requires item == Carts.NewLineAsWritten(id, cartId, item.productId, quantity, item.price)
    ensures SnapLine(item, products) ==
              Failure(BadRequest("Variant null not found in product " + ProductRepository.FindById(products, item.productId).value.name))
  {
    assert "Variant " + "null" + " not found in product " == "Variant null not found in product ";
    var p := ProductRepository.FindById(products, item.productId).value;
    assert forall v :: v in DtoVariables(p).value ==> !Names(v, item.variantId);
    assert Rendered(item.variantId) == "null";
  }

  /** The line the corrected addItem stores names its variant, and passes when the product has it. */
  lemma AddedLinePassesCheckout(products: seq<Product>, id: Id, cartId: Id, productId: Id, v: Variable,
                                talla: string, quantity: int, price: Cents)
    requires var p := ProductRepository.FindById(products, productId);
             p.Some? && p.value.active && DtoVariables(p.value).Some? && v in DtoVariables(p.value).value
    requires v.variantId != ""
    ensures var p := ProductRepository.FindById(products, productId).value;
            SnapLine(Carts.NewLine(id, cartId, productId, v.variantId, talla, quantity, price), products).Success?
  {
    var item := Carts.NewLine(id, cartId, productId, v.variantId, talla, quantity, price);
    assert Names(v, item.variantId);
  }

  // ---------------------------------------------------------------------------------------
  // Errors

  /**
   * The catch of createCheckout: a BadRequest or an InternalServerError goes out as it is;
   * anything else becomes the generic InternalServerError.
   */
  function Classify(e: Exception): (r: Exception)
    ensures r.BadRequest? || r.InternalServerError?
    ensures e.BadRequest? || e.InternalServerError? ==> r == e
    ensures !(e.BadRequest? || e.InternalServerError?) ==> r == InternalServerError(UnexpectedCheckoutError)
  {
    if e.BadRequest? || e.InternalServerError? then e else InternalServerError(UnexpectedCheckoutError)
  }

  // ---------------------------------------------------------------------------------------
  // createCheckout

  /** The buyer as the client sends it; the phone prefix is not asked for. */
  datatype CustomerInput = CustomerInput(
    fullName: string, email: string, phoneNumber: string, legalId: string, legalIdType: string)

  /** The shipping address as the client sends it; the country is not asked for. */
  datatype ShippingInput = ShippingInput(
    addressLine1: string, addressLine2: Option<string>, region: string, city: string,
    phoneNumber: string, name: string)

  datatype CheckoutDto = CheckoutDto(customerData: CustomerInput, shippingAddress: ShippingInput)

  /** The buyer as the response repeats it, without the e-mail. */
  datatype ResponseCustomer = ResponseCustomer(
    fullName: string, phoneNumber: string, phoneNumberPrefix: string, legalId: string, legalIdType: string)

  /** What the widget checkout is started with. */
  datatype CheckoutResponse = CheckoutResponse(
    publicKey: string, currency: string, amountInCents: int, reference: string,
    signatureIntegrity: string, redirectUrl: Option<string>, customerEmail: string,
    customerData: ResponseCustomer, shippingAddress: ShippingAddress, orderId: Id)

  /** The buyer with the phone prefix forced to Colombia's. */
  function Customer(c: CustomerInput): (r: CustomerData)
    ensures r.phoneNumberPrefix == PhonePrefix
    ensures r.fullName == c.fullName && r.email == c.email && r.phoneNumber == c.phoneNumber
    ensures r.legalId == c.legalId && r.legalIdType == c.legalIdType
  {
    CustomerData(c.fullName, c.email, PhonePrefix, c.phoneNumber, c.legalId, c.legalIdType)
  }

  /** The shipping address with the country forced to Colombia. */
  function Shipping(s: ShippingInput): (r: ShippingAddress)
    ensures r.country == Country
    ensures r.addressLine1 == s.addressLine1 && r.addressLine2 == s.addressLine2 && r.region == s.region
    ensures r.city == s.city && r.phoneNumber == s.phoneNumber && r.name == s.name
  {
    ShippingAddress(s.addressLine1, s.addressLine2, Country, s.region, s.city, s.phoneNumber, s.name)
  }

  /**
   * The lines checkout sees: the eager `items` relation of the live cart the session already
   * had; a cart getCart has just created comes back without it.
   */
  function LoadedLines(carts: seq<Cart>, items: seq<CartItem>, sessionId: string, now: Time): (lines: seq<CartItem>)
    ensures Carts.ActiveCart(carts, sessionId).None? ==> lines == []
    ensures Carts.ActiveCart(carts, sessionId).Some? && now > Carts.ActiveCart(carts, sessionId).value.expiresAt ==> lines == []
    ensures forall x :: x in lines ==> x in items
  {
    match Carts.ActiveCart(carts, sessionId)
    case Some(c) => if now > c.expiresAt then [] else Carts.LinesOf(items, c.id)
    case None => []
  }

  /** The PENDING order checkout stores; nothing sets its session. */
  function NewOrder(id: Id, reference: string, amount: int, dto: CheckoutDto, snap: seq<SnapshotItem>, now: Time): (o: Order)
    ensures o.id == id && o.reference == reference && o.amountInCents == amount && o.createdAt == now
    ensures o.status == Pending && o.sessionId.None? && o.wompiTransactionId.None? && o.currency == Currency
    ensures o.expiresAt == Some(now + 15 * 60 * 1000)
    ensures o.customerData.Some? && o.customerData.value.phoneNumberPrefix == PhonePrefix
    ensures o.customerEmail == dto.customerData.email
    ensures o.cartSnapshot.Some? && o.cartSnapshot.value.items == snap
    ensures o.cartSnapshot.value.total == o.cartSnapshot.value.subtotal - o.cartSnapshot.value.discountTotal
  {
    var customer := Customer(dto.customerData);
    Order(id, reference, None, None, Pending, amount, Currency, customer.email, Some(customer),
          Some(Shipping(dto.shippingAddress)),
          Some(CartSnapshot(snap, SnapSubtotal(snap), SnapDiscount(snap), SnapSubtotal(snap) - SnapDiscount(snap))),
          Some(now + OrderExpirationMinutes * MinuteMs), None, None, None, None, None, None, None, now)
  }

  /** The response for a stored order and its signature. */
  function Response(config: WompiConfig, order: Order, signature: string): (r: CheckoutResponse)
    ensures r.orderId == order.id && r.reference == order.reference && r.amountInCents == order.amountInCents
    ensures r.signatureIntegrity == signature && r.currency == Currency && r.customerEmail == order.customerEmail
    ensures r.publicKey == config.publicKey && r.redirectUrl == config.redirectUrl
    ensures order.shippingAddress.Some? ==> r.shippingAddress == order.shippingAddress.value
  {
    var c := order.customerData.GetOr(CustomerData("", "", "", "", "", ""));
    CheckoutResponse(config.publicKey, Currency, order.amountInCents, order.reference, signature,
                     config.redirectUrl, order.customerEmail,
                     ResponseCustomer(c.fullName, c.phoneNumber, c.phoneNumberPrefix, c.legalId, c.legalIdType),
                     order.shippingAddress.GetOr(ShippingAddress("", None, "", "", "", "", "")), order.id)
  }

  /** Two orders never share an id or a reference. */
  predicate OrdersApart(a: Order, b: Order)
    ensures OrdersApart(a, b) ==> a != b
  {
    a.id != b.id && a.reference != b.reference
  }

  predicate ValidOrders(orders: seq<Order>) {
    Tables.Pairwise(orders, OrdersApart)
  }

  /** An order already holds the id or the reference. */
  predicate OrderKeyTaken(orders: seq<Order>, id: Id, reference: string) {
    exists o :: o in orders && (o.id == id || o.reference == reference)
  }

  /**
   * The middle of createCheckout, from the snapshot to the order: the first failing line's
   * error, BadRequest when the total is not positive, and otherwise the PENDING order for
   * the snapshot's total.
   */
  function PlaceOrder(lines: seq<CartItem>, products: seq<Product>, dto: CheckoutDto, reference: string,
                      orderId: Id, now: Time): (r: Result<Order, Exception>)
    ensures r.Success? ==> r.value.id == orderId && r.value.reference == reference && r.value.amountInCents > 0
  {
    match Snapshot(lines, products)
    case Failure(e) => Failure(e)
    case Success(snap) =>
      var amount := SnapSubtotal(snap) - SnapDiscount(snap);
      if amount <= 0 then Failure(BadRequest("Invalid cart total amount"))
      else Success(NewOrder(orderId, reference, amount, dto, snap, now))
  }

  /**
   * The order placed: exactly when every line passes and the snapshot totals more than zero;
   * PENDING, in pesos, for that total, holding the snapshot, the buyer with prefix 57 and the
   * address in CO, no transaction yet, expiring fifteen minutes from now.
   */
  lemma PlaceOrderSpec(lines: seq<CartItem>, products: seq<Product>, dto: CheckoutDto, reference: string, orderId: Id, now: Time)
    ensures var r := PlaceOrder(lines, products, dto, reference, orderId, now);
            && (r.Success? <==>
                  && Snapshot(lines, products).Success?
                  && SnapSubtotal(Snapshot(lines, products).value) - SnapDiscount(Snapshot(lines, products).value) > 0)
            && (r.Failure? && Snapshot(lines, products).Failure? ==> r.error == Snapshot(lines, products).error)
            && (r.Failure? && Snapshot(lines, products).Success? ==> r.error == BadRequest("Invalid cart total amount"))
            && (r.Success? ==>
                  var snap := Snapshot(lines, products).value;
                  && r.value.status == Pending && r.value.currency == Currency
                  && r.value.cartSnapshot == Some(CartSnapshot(snap, SnapSubtotal(snap), SnapDiscount(snap), r.value.amountInCents))
                  && r.value.amountInCents == SnapLineTotals(snap)
                  && r.value.customerData == Some(Customer(dto.customerData))
                  && r.value.customerEmail == dto.customerData.email
                  && r.value.shippingAddress == Some(Shipping(dto.shippingAddress))
                  && r.value.expiresAt == Some(now + 15 * 60000)
                  && r.value.wompiTransactionId.None? && r.value.createdAt == now)
  {
    SnapshotSpec(lines, products);
    if Snapshot(lines, products).Success? {
      SnapshotAmountIsSumOfLineTotals(lines, products);
    }
  }

  /** The integrity signature of an order: its reference, its amount, the currency and the secret. */
  function Signature(config: WompiConfig, sha256: seq<Integrity.byte> -> Integrity.Digest, order: Order): string
    requires order.amountInCents >= 0
  {
    Integrity.IntegritySignature(sha256, order.reference, order.amountInCents, Currency, config.integritySecret)
  }

  /** The carts and orders after a checkout, with what it answered. */
  datatype CheckoutOutcome = CheckoutOutcome(carts: seq<Cart>, orders: seq<Order>, result: Result<CheckoutResponse, Exception>)

  /**
   * createCheckout. `reference` and `orderId` are the fresh uuids, `sha256` the digest and
   * `now` the clock; the cart service's getCart runs first and its writes stay.
   */
  function Checkout(carts: seq<Cart>, items: seq<CartItem>, orders: seq<Order>, products: seq<Product>,
                    config: WompiConfig, dto: CheckoutDto, sessionId: string, sha256: seq<Integrity.byte> -> Integrity.Digest,
                    newCartId: Id, reference: string, orderId: Id, now: Time): (o: CheckoutOutcome)
    ensures o.carts == Carts.GetOrCreate(carts, sessionId, newCartId, now).carts
    ensures o.result.Failure? ==> o.orders == orders
    ensures o.result.Success? ==> && |o.orders| == |orders| + 1 && o.orders[..|orders|] == orders
                                  && o.orders[|orders|].id == orderId && o.orders[|orders|].reference == reference
                                  && o.result.value.orderId == orderId && o.result.value.reference == reference
  {
    var got := Carts.GetOrCreate(carts, sessionId, newCartId, now);
    if got.result.Failure? then CheckoutOutcome(got.carts, orders, Failure(Classify(got.result.error)))
    else
      var lines := LoadedLines(carts, items, sessionId, now);
      if |lines| == 0 then CheckoutOutcome(got.carts, orders, Failure(BadRequest("Cart is empty")))
      else match PlaceOrder(lines, products, dto, reference, orderId, now)
        case Failure(e) => CheckoutOutcome(got.carts, orders, Failure(Classify(e)))
        case Success(order) =>
          if OrderKeyTaken(orders, orderId, reference) then CheckoutOutcome(got.carts, orders, Failure(Classify(DuplicateEntry)))
          else CheckoutOutcome(got.carts, orders + [order], Success(Response(config, order, Signature(config, sha256, order))))
  }

  /**
   * A session whose cart holds no lines (none yet, a fresh replacement for an expired one, or
   * an emptied one) is refused with 'Cart is empty', and no order is stored.
   */
  lemma EmptyCartRejected(carts: seq<Cart>, items: seq<CartItem>, orders: seq<Order>, products: seq<Product>,
                          config: WompiConfig, dto: CheckoutDto, sessionId: string, sha256: seq<Integrity.byte> -> Integrity.Digest,
                          newCartId: Id, reference: string, orderId: Id, now: Time)
    requires LoadedLines(carts, items, sessionId, now) == []
    ensures var o := Checkout(carts, items, orders, products, config, dto, sessionId, sha256, newCartId, reference, orderId, now);
            o.orders == orders && o.result.Failure? &&
            (Carts.GetOrCreate(carts, sessionId, newCartId, now).result.Success? ==> o.result.error == BadRequest("Cart is empty"))
  {
  }

  /**
   * Every failure of checkout is a BadRequest or an InternalServerError, stores no order and
   * leaves the carts as getCart left them.
   */
  lemma CheckoutFailures(carts: seq<Cart>, items: seq<CartItem>, orders: seq<Order>, products: seq<Product>,
                         config: WompiConfig, dto: CheckoutDto, sessionId: string, sha256: seq<Integrity.byte> -> Integrity.Digest,
                         newCartId: Id, reference: string, orderId: Id, now: Time)
    ensures var o := Checkout(carts, items, orders, products, config, dto, sessionId, sha256, newCartId, reference, orderId, now);
            o.carts == Carts.GetOrCreate(carts, sessionId, newCartId, now).carts &&
            (o.result.Failure? ==> o.orders == orders && (o.result.error.BadRequest? || o.result.error.InternalServerError?))
  {
    var got := Carts.GetOrCreate(carts, sessionId, newCartId, now);
    var lines := LoadedLines(carts, items, sessionId, now);
    if got.result.Success? && |lines| > 0 {
      match PlaceOrder(lines, products, dto, reference, orderId, now)
      case Failure(e) =>
      case Success(order) =>
        if !OrderKeyTaken(orders, orderId, reference) {
          assert Checkout(carts, items, orders, products, config, dto, sessionId, sha256, newCartId, reference, orderId, now).result.Success?;
        }
    }
  }

  /**
   * A line that fails checkout, anywhere in a live cart, makes the whole checkout fail, and
   * no order is stored.
   */
  lemma FailingLineRejectsCheckout(carts: seq<Cart>, items: seq<CartItem>, orders: seq<Order>, products: seq<Product>,
                                   config: WompiConfig, dto: CheckoutDto, sessionId: string, sha256: seq<Integrity.byte> -> Integrity.Digest,
                                   newCartId: Id, reference: string, orderId: Id, now: Time, k: nat)
    requires Carts.GetOrCreate(carts, sessionId, newCartId, now).result.Success?
    requires var lines := LoadedLines(carts, items, sessionId, now);
             k < |lines| && SnapLine(lines[k], products).Failure?
    ensures var o := Checkout(carts, items, orders, products, config, dto, sessionId, sha256, newCartId, reference, orderId, now);
            o.orders == orders && o.result.Failure?
  {
    var lines := LoadedLines(carts, items, sessionId, now);
    SnapshotSpec(lines, products);
    assert PlaceOrder(lines, products, dto, reference, orderId, now).Failure?;
  }

  /**
   * A successful checkout stores exactly one order, the one PlaceOrder made of the loaded
   * lines, and the response agrees with it: the same id, reference, amount, currency, buyer
   * and address, the public key, and the integrity signature of the order.
   */
  lemma CheckoutSuccess(carts: seq<Cart>, items: seq<CartItem>, orders: seq<Order>, products: seq<Product>,
                        config: WompiConfig, dto: CheckoutDto, sessionId: string, sha256: seq<Integrity.byte> -> Integrity.Digest,
                        newCartId: Id, reference: string, orderId: Id, now: Time)
    requires Checkout(carts, items, orders, products, config, dto, sessionId, sha256, newCartId, reference, orderId, now).result.Success?
    ensures var o := Checkout(carts, items, orders, products, config, dto, sessionId, sha256, newCartId, reference, orderId, now);
            var placed := PlaceOrder(LoadedLines(carts, items, sessionId, now), products, dto, reference, orderId, now);
            var r := o.result.value;
            && placed.Success? && o.orders == orders + [placed.value]
            && r.orderId == orderId && r.reference == reference && r.currency == Currency
            && r.amountInCents == placed.value.amountInCents > 0
            && r.customerEmail == placed.value.customerEmail
            && r.customerData.phoneNumberPrefix == PhonePrefix
            && Some(r.shippingAddress) == placed.value.shippingAddress && r.shippingAddress.country == Country
            && r.publicKey == config.publicKey && r.redirectUrl == config.redirectUrl
            && r.signatureIntegrity == Signature(config, sha256, placed.value)
  {
    PlaceOrderSpec(LoadedLines(carts, items, sessionId, now), products, dto, reference, orderId, now);
  }

  /** The signature the response carries is the digest of reference ‖ amount ‖ 'COP' ‖ secret, in hex. */
  lemma SignatureSpec(config: WompiConfig, sha256: seq<Integrity.byte> -> Integrity.Digest, order: Order)
    requires order.amountInCents > 0
    ensures var s := Signature(config, sha256, order);
            && |s| == 64 && (forall k :: 0 <= k < 64 ==> Integrity.IsLowerHex(s[k]))
            && Integrity.HexDecode(s) ==
                 sha256(Integrity.Utf8Encode(order.reference + NatToString(order.amountInCents) + "COP" + config.integritySecret))
  {
  }

  /** Storing an order whose id and reference are both new keeps them unique. */
  lemma InsertOrderKeepsValid(orders: seq<Order>, order: Order)
    requires ValidOrders(orders) && !OrderKeyTaken(orders, order.id, order.reference)
    ensures ValidOrders(orders + [order])
  {
    var r := orders + [order];
    forall i, j | 0 <= i < j < |r| ensures OrdersApart(r[i], r[j]) {
      if j == |orders| {
        assert r[i] in orders;
      } else {
        assert r[i] == orders[i] && r[j] == orders[j];
      }
    }
  }

  // ---------------------------------------------------------------------------------------
  // updateOrderStatus and getOrderByReference

  /** findByReference. */
  function FindByReference(orders: seq<Order>, reference: string): (r: Option<Order>)
    ensures r.Some? ==> r.value in orders && r.value.reference == reference
    ensures r.None? <==> forall o :: o in orders ==> o.reference != reference
  {
    Tables.FindFirst(orders, (o: Order) => o.reference == reference)
  }

  /** The order with the new status, and the gateway's transaction id when one is given. */
  function WithStatus(o: Order, status: OrderStatus, transactionId: Option<string>): Order {
    if TruthyText(transactionId) then o.(status := status, wompiTransactionId := transactionId)
    else o.(status := status)
  }

  datatype StatusOutcome = StatusOutcome(orders: seq<Order>, result: Result<Order, Exception>)

  function NotFoundMessage(reference: string): string {
    "Order with reference " + reference + " not found"
  }

  /**
   * updateOrderStatus: NotFound for an unknown reference; otherwise the order is saved with
   * the new status. The save writes the row with the order's id, which, references being
   * unique, is the one row with that reference.
   */
  function StatusUpdate(orders: seq<Order>, reference: string, status: OrderStatus, transactionId: Option<string>): (o: StatusOutcome)
    ensures |o.orders| == |orders|
    ensures o.result.Failure? <==> forall x :: x in orders ==> x.reference != reference
    ensures o.result.Failure? ==> o.orders == orders
    ensures o.result.Success? ==> o.result.value.reference == reference && o.result.value.status == status
    ensures forall i :: 0 <= i < |orders| ==> o.orders[i].id == orders[i].id && o.orders[i].reference == orders[i].reference
  {
    match FindByReference(orders, reference)
    case None => StatusOutcome(orders, Failure(NotFound(NotFoundMessage(reference))))
    case Some(o) =>
      StatusOutcome(Tables.UpdateWhere(orders, (x: Order) => x.reference == reference, (x: Order) => WithStatus(x, status, transactionId)),
                    Success(WithStatus(o, status, transactionId)))
  }

  /**
   * The status write: an unknown reference fails with NotFound and changes nothing; otherwise
   * the order with that reference, and no other, gets the status, keeps every other field, and
   * takes the transaction id only when a non-empty one is given.
   */
  lemma StatusUpdateSpec(orders: seq<Order>, reference: string, status: OrderStatus, transactionId: Option<string>)
    requires ValidOrders(orders)
    ensures var o := StatusUpdate(orders, reference, status, transactionId);
            && (o.result.Failure? <==> FindByReference(orders, reference).None?)
            && (o.result.Failure? ==> o.orders == orders && o.result.error == NotFound(NotFoundMessage(reference)))
            && |o.orders| == |orders|
            && forall i :: 0 <= i < |orders| ==>
                 if orders[i].reference == reference then
                   && o.orders[i].status == status
                   && o.orders[i].wompiTransactionId == (if TruthyText(transactionId) then transactionId else orders[i].wompiTransactionId)
                   && o.orders[i].(status := orders[i].status, wompiTransactionId := orders[i].wompiTransactionId) == orders[i]
                   && o.result == Success(o.orders[i])
                 else o.orders[i] == orders[i]
  {
    var found := FindByReference(orders, reference);
    if found.Some? {
      var k :| 0 <= k < |orders| && orders[k] == found.value;
      forall i | 0 <= i < |orders| && i != k ensures orders[i].reference != reference {
        if i < k {
          assert OrdersApart(orders[i], orders[k]);
        } else {
          assert OrdersApart(orders[k], orders[i]);
        }
      }
    }
  }

  /** Writing the same status (and transaction id) a second time changes nothing more. */
  lemma StatusUpdateIdempotent(orders: seq<Order>, reference: string, status: OrderStatus, transactionId: Option<string>)
    ensures var once := StatusUpdate(orders, reference, status, transactionId);
            StatusUpdate(once.orders, reference, status, transactionId).orders == once.orders
  {
    var p := (x: Order) => x.reference == reference;
    var f := (x: Order) => WithStatus(x, status, transactionId);
    forall x | p(x) ensures p(f(x)) && f(f(x)) == f(x) {
      WithStatusTwice(x, status, transactionId);
    }
    Tables.UpdateWhereTwice(orders, p, f);
  }

  /** Setting the same status and transaction id again changes nothing. */
  lemma WithStatusTwice(o: Order, status: OrderStatus, transactionId: Option<string>)
    ensures WithStatus(WithStatus(o, status, transactionId), status, transactionId) == WithStatus(o, status, transactionId)
  {
  }

  /** The status write keeps ids and references unique. */
  lemma StatusUpdateKeepsValid(orders: seq<Order>, reference: string, status: OrderStatus, transactionId: Option<string>)
    requires ValidOrders(orders)
    ensures ValidOrders(StatusUpdate(orders, reference, status, transactionId).orders)
  {
    match FindByReference(orders, reference)
    case None =>
    case Some(o) =>
      var f := (x: Order) => WithStatus(x, status, transactionId);
      forall x: Order, y: Order | OrdersApart(x, y)
        ensures OrdersApart(f(x), y) && OrdersApart(x, f(y)) && OrdersApart(f(x), f(y))
      {
        WithStatusKeepsKeys(x, status, transactionId);
        WithStatusKeepsKeys(y, status, transactionId);
      }
      Tables.UpdateWhereKeepsPairwise(orders, (x: Order) => x.reference == reference, f, OrdersApart);
  }

  /** A status write keeps the order's id and reference. */
  lemma WithStatusKeepsKeys(o: Order, status: OrderStatus, transactionId: Option<string>)
    ensures WithStatus(o, status, transactionId).id == o.id
    ensures WithStatus(o, status, transactionId).reference == o.reference
  {
  }

  // ---------------------------------------------------------------------------------------
  // The service

  class PaymentService {
    const config: WompiConfig
    var orders: seq<Order>

    predicate Valid()
      reads this
    {
      Usable(config) && ValidOrders(orders)
    }

    /** The service over a configuration the environment check accepted. */
    constructor(config0: WompiConfig, orders0: seq<Order>)
      requires Usable(config0) && ValidOrders(orders0)
      ensures config == config0 && orders == orders0 && Valid()
    {
      config := config0;
      orders := orders0;
    }

    /**
     * createCheckout: getCart, the empty-cart check, the loop that snapshots each line and
     * sums the subtotal and the discount total, the amount check, the signature, the order
     * and the response; errors go through the catch.
     */
    method CreateCheckout(dto: CheckoutDto, sessionId: string, cartService: Carts.CartService, products: seq<Product>,
                          sha256: seq<Integrity.byte> -> Integrity.Digest, newCartId: Id, reference: string, orderId: Id, now: Time)
      returns (r: Result<CheckoutResponse, Exception>)
      requires Valid() && cartService.Valid()
      modifies this, cartService
      ensures Valid() && cartService.Valid() && cartService.items == old(cartService.items)
      ensures CheckoutOutcome(cartService.carts, orders, r) ==
                Checkout(old(cartService.carts), cartService.items, old(orders), products, config, dto, sessionId,
                         sha256, newCartId, reference, orderId, now)
    {
      var lines := LoadedLines(cartService.carts, cartService.items, sessionId, now);
      var cart := cartService.GetOrCreateCart(sessionId, newCartId, now);
      if cart.Failure? {
        return Failure(Classify(cart.error));
      }
      if |lines| == 0 {
        return Failure(BadRequest("Cart is empty"));
      }
      var placed := Place(lines, products, dto, reference, orderId, now);
      if placed.Failure? {
        return Failure(Classify(placed.error));
      }
      var order := placed.value;
      var signature := Signature(config, sha256, order);
      if OrderKeyTaken(orders, orderId, reference) {
        return Failure(Classify(DuplicateEntry));
      }
      InsertOrderKeepsValid(orders, order);
      orders := orders + [order];
      return Success(Response(config, order, signature));
    }

    /** updateOrderStatus, the only writer of an order's payment status. */
    method UpdateOrderStatus(reference: string, status: OrderStatus, transactionId: Option<string>)
      returns (r: Result<Order, Exception>)
      requires Valid()
      modifies this
      ensures Valid()
      ensures StatusOutcome(orders, r) == StatusUpdate(old(orders), reference, status, transactionId)
    {
      StatusUpdateKeepsValid(orders, reference, status, transactionId);
      var order := FindByReference(orders, reference);
      if order.None? {
        return Failure(NotFound(NotFoundMessage(reference)));
      }
      var saved := order.value.(status := status);
      if TruthyText(transactionId) {
        saved := saved.(wompiTransactionId := transactionId);
      }
      orders := Tables.UpdateWhere(orders, (x: Order) => x.reference == reference, (x: Order) => WithStatus(x, status, transactionId));
      return Success(saved);
    }

    /** getOrderByReference: the order with that reference, or NotFound. */
    method GetOrderByReference(reference: string) returns (r: Result<Order, Exception>)
      requires Valid()
      ensures r.Success? <==> exists o :: o in orders && o.reference == reference
      ensures r.Success? ==> r.value in orders && r.value.reference == reference
      ensures r.Failure? ==> r.error == NotFound(NotFoundMessage(reference))
    {
      var order := FindByReference(orders, reference);
      if order.None? {
        return Failure(NotFound(NotFoundMessage(reference)));
      }
      return Success(order.value);
    }
  }
}
