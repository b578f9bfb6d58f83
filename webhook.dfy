/**
 * PaymentController.handleWebhook: the gateway's notification of a transaction's outcome.
 * A chain of guards decides whether the notification is acted on; the gateway status is
 * translated to an order status and written through PaymentService.updateOrderStatus. Every
 * exception is swallowed, so the sender is always answered with 200 OK.
 */
module Webhook {
  import opened Wrappers
  import opened Text
  import opened Entities
  import Integrity
  import Payments

  /** `data.transaction`: every field is whatever the sender put there, possibly nothing. */
  datatype Transaction = Transaction(id: Option<string>, reference: Option<string>, status: Option<string>)

  /** The webhook body: `event`, and `data.transaction` when both `data` and it are present. */
  datatype WebhookData = WebhookData(event: Option<string>, transaction: Option<Transaction>)

  /** What the handler does: nothing, or one status write. */
  datatype Decision = Ignore | Update(reference: string, status: OrderStatus, transactionId: Option<string>)

  const TransactionUpdated := "transaction.updated"

  /**
   * The status switch on `status?.toUpperCase()`: the four gateway outcomes map to the order
   * status of the same name, in any letter case; everything else, an absent status included,
   * is PENDING.
   */
  function MapStatus(status: Option<string>): (s: OrderStatus)
    ensures s == Approved <==> status.Some? && ToUpper(status.value) == "APPROVED"
    ensures s == Declined <==> status.Some? && ToUpper(status.value) == "DECLINED"
    ensures s == Voided <==> status.Some? && ToUpper(status.value) == "VOIDED"
    ensures s == Error <==> status.Some? && ToUpper(status.value) == "ERROR"
  {
    if status.None? then Pending
    else
      var upper := ToUpper(status.value);
      if upper == "APPROVED" then Approved
      else if upper == "DECLINED" then Declined
      else if upper == "VOIDED" then Voided
      else if upper == "ERROR" then Error
      else Pending
  }

  /** Upper-casing twice is upper-casing once. */
  lemma ToUpperIdempotent(s: string)
    ensures ToUpper(ToUpper(s)) == ToUpper(s)
  {
    var once := ToUpper(s);
    forall i | 0 <= i < |s| ensures ToUpper(once)[i] == once[i] {
      assert once[i] == UpperChar(s[i]);
    }
  }

  /** The mapping ignores letter case: a status and its upper-cased form map alike. */
  lemma MapStatusIgnoresCase(status: string)
    ensures MapStatus(Some(status)) == MapStatus(Some(ToUpper(status)))
  {
    ToUpperIdempotent(status);
  }

  /** Every order status's own name, upper- or lower-case, maps back to it. */
  lemma MapStatusOfName(s: OrderStatus)
    ensures MapStatus(Some(StatusName(s))) == s
    ensures MapStatus(Some(ToLower(StatusName(s)))) == s
  {
    var name := StatusName(s);
    var lower := ToLower(name);
    assert ToUpper(name) == name by {
      forall i | 0 <= i < |name| ensures ToUpper(name)[i] == name[i] {
        assert 'A' <= name[i] <= 'Z';
      }
    }
    assert ToUpper(lower) == name by {
      forall i | 0 <= i < |name| ensures ToUpper(lower)[i] == name[i] {
        assert 'A' <= name[i] <= 'Z';
      }
    }
  }

  /**
   * The guard chain: a notification is acted on exactly when its signature was accepted, its
   * event is "transaction.updated", it carries a transaction, and that transaction has a
   * non-empty reference; the one write then carries the reference, the mapped status and the
   * transaction's id.
   */
  function Decide(body: WebhookData, signatureValid: bool): (d: Decision)
    ensures !signatureValid ==> d == Ignore
    ensures d.Update? <==>
              && signatureValid
              && body.event == Some(TransactionUpdated)
              && body.transaction.Some?
              && TruthyText(body.transaction.value.reference)
    ensures d.Update? ==>
              d == Update(body.transaction.value.reference.value, MapStatus(body.transaction.value.status),
                          body.transaction.value.id)
  {
    if !signatureValid then Ignore
    else if !TruthyText(body.event) then Ignore
    else if body.transaction.None? then Ignore
    else if body.event.value != TransactionUpdated then Ignore
    else
      var t := body.transaction.value;
      if !TruthyText(t.reference) then Ignore
      else Update(t.reference.value, MapStatus(t.status), t.id)
  }

  /** The orders after the handler: the status write's table, or the same table when ignored. */
  function Apply(orders: seq<Order>, d: Decision): (r: seq<Order>)
    ensures |r| == |orders|
    ensures d.Ignore? ==> r == orders
    ensures forall i :: 0 <= i < |orders| ==> r[i].id == orders[i].id && r[i].reference == orders[i].reference
    ensures d.Update? ==> forall i :: 0 <= i < |orders| && orders[i].reference != d.reference ==> r[i] == orders[i]
  {
    match d
    case Ignore => orders
    case Update(reference, status, transactionId) =>
      Payments.StatusUpdate(orders, reference, status, transactionId).orders
  }

  /** A notification that is acted on gives its order, and only that order, the mapped status. */
  lemma AcceptedWebhookSetsStatus(orders: seq<Order>, body: WebhookData, signatureValid: bool, i: nat)
    requires Payments.ValidOrders(orders)
    requires Decide(body, signatureValid).Update? && i < |orders|
    ensures var t := body.transaction.value;
            var after := Apply(orders, Decide(body, signatureValid));
            && |after| == |orders|
            && (orders[i].reference == t.reference.value ==>
                  after[i].status == MapStatus(t.status)
                  && after[i].wompiTransactionId == (if TruthyText(t.id) then t.id else orders[i].wompiTransactionId))
            && (orders[i].reference != t.reference.value ==> after[i] == orders[i])
  {
    var t := body.transaction.value;
    Payments.StatusUpdateSpec(orders, t.reference.value, MapStatus(t.status), t.id);
  }

  /** A second delivery of the same notification changes nothing more. */
  lemma WebhookRedeliveryIdempotent(orders: seq<Order>, body: WebhookData, signatureValid: bool)
    ensures var d := Decide(body, signatureValid);
            Apply(Apply(orders, d), d) == Apply(orders, d)
  {
    var d := Decide(body, signatureValid);
    if d.Update? {
      Payments.StatusUpdateIdempotent(orders, d.reference, d.status, d.transactionId);
    }
  }

  /** The handler keeps order ids and references unique. */
  lemma WebhookKeepsValid(orders: seq<Order>, d: Decision)
    requires Payments.ValidOrders(orders)
    ensures Payments.ValidOrders(Apply(orders, d))
  {
    if d.Update? {
      Payments.StatusUpdateKeepsValid(orders, d.reference, d.status, d.transactionId);
    }
  }

  /** `String(webhookData)` for a parsed JSON body: what TextEncoder is handed as the payload. */
  const ObjectText := "[object Object]"

  /**
   * The guard chain as written: verifyWebhookSignature is called with the parsed body alone,
   * so it hashes the body's string form and compares the result with an absent signature,
   * and no notification is ever acted on.
   */
  function DecideAsWritten(body: WebhookData, sha256: seq<Integrity.byte> -> Integrity.Digest): (d: Decision)
    ensures d == Ignore
  {
    Decide(body, Integrity.VerifySignature(sha256, ObjectText, None))
  }

  /**
   * A genuine approval of order "ref-1": with its signature accepted it sets the order to
   * APPROVED, while as written it leaves every order as it was.
   */
  lemma WebhookAsWrittenDropsApproval(orders: seq<Order>, sha256: seq<Integrity.byte> -> Integrity.Digest)
    ensures var body := WebhookData(Some(TransactionUpdated), Some(Transaction(Some("tx-1"), Some("ref-1"), Some("APPROVED"))));
            && Decide(body, true) == Update("ref-1", Approved, Some("tx-1"))
            && Apply(orders, DecideAsWritten(body, sha256)) == orders
  {
    MapStatusOfName(Approved);
  }

  /**
   * The signature check feeds the guard chain: a notification that carries the hex rendering of
   * its payload's digest is decided as one whose signature was accepted, and any other signature
   * makes it ignored.
   */
  lemma SignatureDecides(body: WebhookData, sha256: seq<Integrity.byte> -> Integrity.Digest,
                         payload: string, signature: string)
    ensures var genuine := Integrity.HexEncode(sha256(Integrity.Utf8Encode(payload)));
            Decide(body, Integrity.VerifySignature(sha256, payload, Some(signature)))
              == if signature == genuine then Decide(body, true) else Ignore
  {
  }

  /** A genuine approval of order "ref-1", signed with its payload's digest, sets it to APPROVED. */
  lemma SignedApprovalApplied(sha256: seq<Integrity.byte> -> Integrity.Digest, payload: string)
    ensures var body := WebhookData(Some(TransactionUpdated), Some(Transaction(Some("tx-1"), Some("ref-1"), Some("APPROVED"))));
            var signature := Integrity.HexEncode(sha256(Integrity.Utf8Encode(payload)));
            Decide(body, Integrity.VerifySignature(sha256, payload, Some(signature))) == Update("ref-1", Approved, Some("tx-1"))
  {
    var body := WebhookData(Some(TransactionUpdated), Some(Transaction(Some("tx-1"), Some("ref-1"), Some("APPROVED"))));
    var signature := Integrity.HexEncode(sha256(Integrity.Utf8Encode(payload)));
    SignatureDecides(body, sha256, payload, signature);
    MapStatusOfName(Approved);
    assert Decide(body, true) == Update("ref-1", Approved, Some("tx-1"));
  }

  class PaymentController {
    const paymentService: Payments.PaymentService

    constructor(service: Payments.PaymentService)
      ensures paymentService == service
    {
      paymentService := service;
    }

    /**
     * handleWebhook, with the signature check's verdict as an input. The status write's
     * NotFound is caught, which leaves the orders as they were; the handler always returns.
     */
    method HandleWebhook(body: WebhookData, signatureValid: bool)
      requires paymentService.Valid()
      modifies paymentService
      ensures paymentService.Valid()
      ensures paymentService.orders == Apply(old(paymentService.orders), Decide(body, signatureValid))
    {
      if !signatureValid {
        return;
      }
      if !TruthyText(body.event) {
        return;
      }
      if body.transaction.None? {
        return;
      }
      var event := body.event.value;
      var transaction := body.transaction.value;
      if event != TransactionUpdated {
        return;
      }
      if !TruthyText(transaction.reference) {
        return;
      }
      var orderStatus := MapStatus(transaction.status);
      var updated := paymentService.UpdateOrderStatus(transaction.reference.value, orderStatus, transaction.id);
    }
  }
}
