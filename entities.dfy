/**
 * The rows of the shop's tables, as the TypeORM entities declare them. Money columns are
 * `decimal(10,2)` and are held as whole cents; instants are milliseconds.
 */
module Entities {
  import opened Wrappers

  type Id = string

  /** An amount of pesos in cents: a `decimal(10,2)` value times 100. */
  type Cents = int

  /** An instant, in milliseconds. */
  type Time = int

  datatype Color = Color(id: Id, name: string, hexCode: string, active: bool, createdAt: Time)

  datatype Quality = Quality(id: Id, name: string, description: Option<string>, active: bool, createdAt: Time)

  /** A category; `parentId` is `None` for a top-level one. */
  datatype Category = Category(
    id: Id, name: string, isDefault: bool, active: bool, parentId: Option<Id>, createdAt: Time)

  /** One colour variant of a product, with its image URLs in display order. */
  datatype Variable = Variable(variantId: Id, colorId: Id, images: seq<string>)

  /** A product: the columns of the products table; `variables` is the nullable JSON column. */
  datatype Product = Product(
    id: Id, name: string, price: Cents, active: bool,
    categoryIds: seq<Id>, qualityId: Id, variables: Option<seq<Variable>>, createdAt: Time)

  datatype CartStatus = Active | Completed | Abandoned

  datatype Cart = Cart(
    id: Id, sessionId: string, status: CartStatus,
    subtotal: Cents, discountTotal: Cents, total: Cents, expiresAt: Time)

  /** A line of a cart; `variantId` and `talla` (the size) are nullable columns. */
  datatype CartItem = CartItem(
    id: Id, cartId: Id, productId: Id, variantId: Option<Id>, talla: Option<string>,
    quantity: int, price: Cents, discount: Cents, total: Cents)

  datatype OrderStatus = Pending | Approved | Declined | Voided | Error

  /** The enum's stored string values. */
  function StatusName(s: OrderStatus): string {
    match s
    case Pending => "PENDING"
    case Approved => "APPROVED"
    case Declined => "DECLINED"
    case Voided => "VOIDED"
    case Error => "ERROR"
  }

  /** The shipment states; only the two that stamp a time are told apart. */
  datatype TrackingStatus = Shipped | Delivered | OtherTracking(name: string)

  datatype CustomerData = CustomerData(
    fullName: string, email: string, phoneNumberPrefix: string, phoneNumber: string,
    legalId: string, legalIdType: string)

  datatype ShippingAddress = ShippingAddress(
    addressLine1: string, addressLine2: Option<string>, country: string, region: string,
    city: string, phoneNumber: string, name: string)

  /** One line of the cart as it stood when the order was placed. */
  datatype SnapshotItem = SnapshotItem(
    productId: Id, variantId: Option<Id>, talla: Option<string>, quantity: int,
    price: Cents, discount: Cents, total: Cents, productName: string, colorName: string)

  datatype CartSnapshot = CartSnapshot(
    items: seq<SnapshotItem>, subtotal: Cents, discountTotal: Cents, total: Cents)

  /** An order; the JSON columns and every column written after creation are optional. */
  datatype Order = Order(
    id: Id, reference: string, wompiTransactionId: Option<string>, sessionId: Option<string>,
    status: OrderStatus, amountInCents: int, currency: string, customerEmail: string,
    customerData: Option<CustomerData>, shippingAddress: Option<ShippingAddress>,
    cartSnapshot: Option<CartSnapshot>, expiresAt: Option<Time>,
    checkoutUrl: Option<string>, errorMessage: Option<string>,
    trackingStatus: Option<TrackingStatus>, trackingNumber: Option<string>,
    trackingNotes: Option<string>, shippedAt: Option<Time>, deliveredAt: Option<Time>,
    createdAt: Time)
}
