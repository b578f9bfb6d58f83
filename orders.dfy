/**
 * OrdersService: shipment tracking of paid orders and the two views of an order, the summary
 * that lists show and the detail that copies every column.
 */
module Orders {
  import opened Wrappers
  import opened Entities
  import opened Errors
  import Tables
  import Payments

  /** UpdateTrackingDto: the new shipment state, and optionally a tracking number and notes. */
  datatype TrackingDto = TrackingDto(trackingStatus: TrackingStatus, trackingNumber: Option<string>, trackingNotes: Option<string>)

  datatype CustomerSummary = CustomerSummary(fullName: string, phoneNumber: string)

  /** OrderSummaryDto. */
  datatype OrderSummary = OrderSummary(
    id: Id, reference: string, status: OrderStatus, trackingStatus: Option<TrackingStatus>,
    amountInCents: int, currency: string, customerEmail: string, customerData: CustomerSummary,
    itemsCount: nat, createdAt: Time)

  /** OrderDetailDto: every column of the order. */
  datatype OrderDetail = OrderDetail(
    id: Id, reference: string, sessionId: Option<string>, wompiTransactionId: Option<string>,
    status: OrderStatus, amountInCents: int, currency: string, customerEmail: string,
    customerData: Option<CustomerData>, shippingAddress: Option<ShippingAddress>,
    cartSnapshot: Option<CartSnapshot>, expiresAt: Option<Time>,
    checkoutUrl: Option<string>, errorMessage: Option<string>,
    trackingStatus: Option<TrackingStatus>, trackingNumber: Option<string>,
    trackingNotes: Option<string>, shippedAt: Option<Time>, deliveredAt: Option<Time>,
    createdAt: Time)

  // ---------------------------------------------------------------------------------------
  // mapToSummaryDto and mapToDetailDto

  /** The number of snapshot lines, 0 when the order has no snapshot. */
  function ItemsCount(o: Order): nat {
    if o.cartSnapshot.Some? then |o.cartSnapshot.value.items| else 0
  }

  /**
   * mapToSummaryDto: the order's identity, states, amount and e-mail, the buyer's name and
   * phone ('' when there is no buyer data) and the number of snapshot lines.
   */
  function MapToSummary(o: Order): (s: OrderSummary)
    ensures s.id == o.id && s.reference == o.reference && s.status == o.status
    ensures s.trackingStatus == o.trackingStatus && s.amountInCents == o.amountInCents
    ensures s.itemsCount == 0 <==> o.cartSnapshot.None? || o.cartSnapshot.value.items == []
    ensures o.customerData.None? ==> s.customerData == CustomerSummary("", "")
    ensures o.customerData.Some? ==>
              s.customerData == CustomerSummary(o.customerData.value.fullName, o.customerData.value.phoneNumber)
  {
    var customer := if o.customerData.Some? then CustomerSummary(o.customerData.value.fullName, o.customerData.value.phoneNumber)
                    else CustomerSummary("", "");
    OrderSummary(o.id, o.reference, o.status, o.trackingStatus, o.amountInCents, o.currency,
                 o.customerEmail, customer, ItemsCount(o), o.createdAt)
  }

  /** mapToDetailDto: a field-for-field copy. */
  function MapToDetail(o: Order): (d: OrderDetail)
    ensures d.id == o.id && d.reference == o.reference && d.status == o.status
    ensures d.amountInCents == o.amountInCents && d.cartSnapshot == o.cartSnapshot
    ensures d.trackingStatus == o.trackingStatus && d.shippedAt == o.shippedAt && d.deliveredAt == o.deliveredAt
  {
    OrderDetail(o.id, o.reference, o.sessionId, o.wompiTransactionId, o.status, o.amountInCents,
                o.currency, o.customerEmail, o.customerData, o.shippingAddress, o.cartSnapshot,
                o.expiresAt, o.checkoutUrl, o.errorMessage, o.trackingStatus, o.trackingNumber,
                o.trackingNotes, o.shippedAt, o.deliveredAt, o.createdAt)
  }

  /** The order a detail view was made from. */
  function OrderOfDetail(d: OrderDetail): Order {
    Order(d.id, d.reference, d.wompiTransactionId, d.sessionId, d.status, d.amountInCents,
          d.currency, d.customerEmail, d.customerData, d.shippingAddress, d.cartSnapshot,
          d.expiresAt, d.checkoutUrl, d.errorMessage, d.trackingStatus, d.trackingNumber,
          d.trackingNotes, d.shippedAt, d.deliveredAt, d.createdAt)
  }

  /** The detail view loses nothing: the order can be read back from it, and only that order. */
  lemma DetailRoundTrip(o: Order, p: Order)
    ensures OrderOfDetail(MapToDetail(o)) == o
    ensures MapToDetail(o) == MapToDetail(p) ==> o == p
  {
    assert OrderOfDetail(MapToDetail(p)) == p;
  }

  /** The summary is a projection of the detail: the two agree on every field they share. */
  lemma SummaryAgreesWithDetail(o: Order)
    ensures var s := MapToSummary(o);
            var d := MapToDetail(o);
            && s.id == d.id && s.reference == d.reference && s.status == d.status
            && s.trackingStatus == d.trackingStatus && s.amountInCents == d.amountInCents
            && s.currency == d.currency && s.customerEmail == d.customerEmail && s.createdAt == d.createdAt
            && s.itemsCount == (if d.cartSnapshot.Some? then |d.cartSnapshot.value.items| else 0)
  {
  }

  // ---------------------------------------------------------------------------------------
  // updateTracking

  /**
   * The tracking write on one order: the tracking status always; the number and the notes
   * when given; the shipped (delivered) time when the new state is SHIPPED (DELIVERED) and no
   * time is recorded yet. Nothing else changes, and a recorded time is never overwritten.
   */
  function Track(o: Order, dto: TrackingDto, now: Time): (t: Order)
    ensures t.(trackingStatus := o.trackingStatus, trackingNumber := o.trackingNumber, trackingNotes := o.trackingNotes,
               shippedAt := o.shippedAt, deliveredAt := o.deliveredAt) == o
    ensures t.id == o.id && t.reference == o.reference
    ensures t.status == o.status && t.amountInCents == o.amountInCents && t.cartSnapshot == o.cartSnapshot
    ensures t.trackingStatus == Some(dto.trackingStatus)
    ensures dto.trackingNumber.Some? ==> t.trackingNumber == dto.trackingNumber
    ensures dto.trackingNumber.None? ==> t.trackingNumber == o.trackingNumber
    ensures dto.trackingNotes.Some? ==> t.trackingNotes == dto.trackingNotes
    ensures dto.trackingNotes.None? ==> t.trackingNotes == o.trackingNotes
    ensures o.shippedAt.Some? ==> t.shippedAt == o.shippedAt
    ensures o.deliveredAt.Some? ==> t.deliveredAt == o.deliveredAt
    ensures t.shippedAt.Some? <==> o.shippedAt.Some? || dto.trackingStatus == Shipped
    ensures t.deliveredAt.Some? <==> o.deliveredAt.Some? || dto.trackingStatus == Delivered
  {
    var o1 := o.(trackingStatus := Some(dto.trackingStatus));
    var o2 := if dto.trackingNumber.Some? then o1.(trackingNumber := dto.trackingNumber) else o1;
    var o3 := if dto.trackingNotes.Some? then o2.(trackingNotes := dto.trackingNotes) else o2;
    var o4 := if dto.trackingStatus == Shipped && o3.shippedAt.None? then o3.(shippedAt := Some(now)) else o3;
    if dto.trackingStatus == Delivered && o4.deliveredAt.None? then o4.(deliveredAt := Some(now)) else o4
  }

  /** Repeating a tracking write, at any later time, changes nothing more. */
  lemma TrackIdempotent(o: Order, dto: TrackingDto, now: Time, later: Time)
    ensures Track(Track(o, dto, now), dto, later) == Track(o, dto, now)
  {
  }

  /** The time of the first update in the list that moves to `target`, if any. */
  function FirstStamp(updates: seq<(TrackingDto, Time)>, target: TrackingStatus): Option<Time> {
    if |updates| == 0 then None
    else if updates[0].0.trackingStatus == target then Some(updates[0].1)
    else FirstStamp(updates[1..], target)
  }

  /** A run of tracking writes, each at its own time. */
  function TrackAll(o: Order, updates: seq<(TrackingDto, Time)>): Order
    decreases |updates|
  {
    if |updates| == 0 then o else TrackAll(Track(o, updates[0].0, updates[0].1), updates[1..])
  }

  /**
   * Each timestamp is written at most once: after any run of tracking writes, the shipped time
   * is the one already recorded, else the time of the first SHIPPED write; likewise delivered.
   */
  lemma {:induction false} StampsAreWrittenOnce(o: Order, updates: seq<(TrackingDto, Time)>)
    decreases |updates|
    ensures TrackAll(o, updates).shippedAt == if o.shippedAt.Some? then o.shippedAt else FirstStamp(updates, Shipped)
    ensures TrackAll(o, updates).deliveredAt == if o.deliveredAt.Some? then o.deliveredAt else FirstStamp(updates, Delivered)
    ensures TrackAll(o, updates).status == o.status && TrackAll(o, updates).amountInCents == o.amountInCents
    ensures TrackAll(o, updates).cartSnapshot == o.cartSnapshot
  {
    if |updates| > 0 {
      StampsAreWrittenOnce(Track(o, updates[0].0, updates[0].1), updates[1..]);
    }
  }

  function OrderNotFound(id: Id): string {
    "Order with ID " + id + " not found"
  }

  function NotTrackable(status: OrderStatus): string {
    "Cannot update tracking for order with status " + StatusName(status) + ". Only APPROVED orders can be tracked."
  }

  /** findOne by id. */
  function FindById(orders: seq<Order>, id: Id): (r: Option<Order>)
    ensures r.Some? ==> r.value in orders && r.value.id == id
    ensures r.None? <==> forall o :: o in orders ==> o.id != id
  {
    Tables.FindFirst(orders, (o: Order) => o.id == id)
  }

  datatype TrackingOutcome = TrackingOutcome(orders: seq<Order>, result: Result<OrderDetail, Exception>)

  /**
   * updateTracking: NotFound for an unknown id, BadRequest for an order that is not APPROVED,
   * otherwise the tracking write, saved over the row with that id, and the saved order's detail.
   */
  function TrackingUpdate(orders: seq<Order>, id: Id, dto: TrackingDto, now: Time): (o: TrackingOutcome)
    ensures |o.orders| == |orders|
    ensures o.result.Failure? ==> o.orders == orders
    ensures o.result.Success? ==> && FindById(orders, id).Some? && FindById(orders, id).value.status == Approved
                                  && o.result.value.id == id
    ensures forall i :: 0 <= i < |orders| && orders[i].id != id ==> o.orders[i] == orders[i]
  {
    match FindById(orders, id)
    case None => TrackingOutcome(orders, Failure(NotFound(OrderNotFound(id))))
    case Some(o) =>
      if o.status != Approved then TrackingOutcome(orders, Failure(BadRequest(NotTrackable(o.status))))
      else TrackingOutcome(Tables.UpdateWhere(orders, (x: Order) => x.id == id, (x: Order) => Track(x, dto, now)),
                           Success(MapToDetail(Track(o, dto, now))))
  }

  /**
   * updateTracking fails exactly for an unknown id (NotFound) or an order that is not
   * APPROVED (BadRequest, naming its status), and then changes nothing; otherwise the order
   * with that id, and no other, gets the tracking write, and the result is its detail.
   */
  lemma UpdateTrackingSpec(orders: seq<Order>, id: Id, dto: TrackingDto, now: Time)
    requires Payments.ValidOrders(orders)
    ensures var out := TrackingUpdate(orders, id, dto, now);
            && |out.orders| == |orders|
            && (out.result.Failure? ==> out.orders == orders)
            && (FindById(orders, id).None? ==> out.result == Failure(NotFound(OrderNotFound(id))))
            && forall i :: 0 <= i < |orders| ==>
                 if orders[i].id == id then
                   && (orders[i].status != Approved ==> out.result == Failure(BadRequest(NotTrackable(orders[i].status))))
                   && (orders[i].status == Approved ==>
                         out.orders[i] == Track(orders[i], dto, now) && out.result == Success(MapToDetail(out.orders[i])))
                 else out.orders[i] == orders[i]
  {
    var found := FindById(orders, id);
    if found.Some? {
      var k :| 0 <= k < |orders| && orders[k] == found.value;
      forall i | 0 <= i < |orders| && i != k ensures orders[i].id != id {
        if i < k {
          assert Payments.OrdersApart(orders[i], orders[k]);
        } else {
          assert Payments.OrdersApart(orders[k], orders[i]);
        }
      }
    }
  }

  /** Tracking never touches an order's payment status, amount or snapshot. */
  lemma UpdateTrackingKeepsPayment(orders: seq<Order>, id: Id, dto: TrackingDto, now: Time)
    ensures var out := TrackingUpdate(orders, id, dto, now).orders;
            && |out| == |orders|
            && forall i :: 0 <= i < |orders| ==>
                 out[i].status == orders[i].status && out[i].amountInCents == orders[i].amountInCents
                 && out[i].cartSnapshot == orders[i].cartSnapshot
  {
    var out := TrackingUpdate(orders, id, dto, now).orders;
    forall i | 0 <= i < |orders|
      ensures out[i].status == orders[i].status && out[i].amountInCents == orders[i].amountInCents
              && out[i].cartSnapshot == orders[i].cartSnapshot
    {
      if orders[i].id == id && FindById(orders, id).Some? && FindById(orders, id).value.status == Approved {
        assert out[i] == Track(orders[i], dto, now);
      }
    }
  }

  /** The tracking write keeps order ids and references unique. */
  lemma UpdateTrackingKeepsValid(orders: seq<Order>, id: Id, dto: TrackingDto, now: Time)
    requires Payments.ValidOrders(orders)
    ensures Payments.ValidOrders(TrackingUpdate(orders, id, dto, now).orders)
  {
    match FindById(orders, id)
    case None =>
    case Some(o) =>
      if o.status == Approved {
        Tables.UpdateWhereKeepsPairwise(orders, (x: Order) => x.id == id, (x: Order) => Track(x, dto, now), Payments.OrdersApart);
      }
  }

  class OrdersService {
    var orders: seq<Order>

    predicate Valid()
      reads this
    {
      Payments.ValidOrders(orders)
    }

    constructor(orders0: seq<Order>)
      requires Payments.ValidOrders(orders0)
      ensures orders == orders0 && Valid()
    {
      orders := orders0;
    }

    /** findOne: the detail of the order with that id, or NotFound. */
    method FindOne(id: Id) returns (r: Result<OrderDetail, Exception>)
      ensures r.Success? <==> exists o :: o in orders && o.id == id
      ensures r.Success? ==> OrderOfDetail(r.value) in orders && r.value.id == id
      ensures r.Failure? ==> r.error == NotFound(OrderNotFound(id))
    {
      var order := FindById(orders, id);
      if order.None? {
        return Failure(NotFound(OrderNotFound(id)));
      }
      DetailRoundTrip(order.value, order.value);
      return Success(MapToDetail(order.value));
    }

    /** updateTracking, with the clock's reading as `now`. */
    method UpdateTracking(id: Id, dto: TrackingDto, now: Time) returns (r: Result<OrderDetail, Exception>)
      requires Valid()
      modifies this
      ensures Valid()
      ensures TrackingOutcome(orders, r) == TrackingUpdate(old(orders), id, dto, now)
    {
      UpdateTrackingKeepsValid(orders, id, dto, now);
      var order := FindById(orders, id);
      if order.None? {
        return Failure(NotFound(OrderNotFound(id)));
      }
      var o := order.value;
      if o.status != Approved {
        return Failure(BadRequest("Cannot update tracking for order with status " + StatusName(o.status) + ". Only APPROVED orders can be tracked."));
      }
      o := o.(trackingStatus := Some(dto.trackingStatus));
      if dto.trackingNumber.Some? {
        o := o.(trackingNumber := dto.trackingNumber);
      }
      if dto.trackingNotes.Some? {
        o := o.(trackingNotes := dto.trackingNotes);
      }
      if dto.trackingStatus == Shipped && o.shippedAt.None? {
        o := o.(shippedAt := Some(now));
      }
      if dto.trackingStatus == Delivered && o.deliveredAt.None? {
        o := o.(deliveredAt := Some(now));
      }
      orders := Tables.UpdateWhere(orders, (x: Order) => x.id == id, (x: Order) => Track(x, dto, now));
      return Success(MapToDetail(o));
    }
  }
}
