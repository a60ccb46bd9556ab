/** The Razorpay webhook (controllers/paymentWebhookController.js): a signed
    `payment.captured` event records the payment in `student_course_payment`
    unless it is already there. Once the signature is accepted the answer is
    always 200, so that Razorpay stops retrying. */
module PaymentWebhook {
  import opened Common
  import opened JsValues
  import opened Razorpay

  /** The parsed body: `event` and `payload.payment.entity.id`. */
  datatype WebhookBody = WebhookBody(event: JsValue, paymentEntityId: JsValue)

  /** What `razorpay.payments.fetch` returns. */
  datatype FetchedPayment = FetchedPayment(id: string, orderId: string, notes: OrderNotes, acquirer: Acquirer)

  datatype WebhookOutcome =
    | BadRequest        // 400: no secret configured or no signature header
    | BadSignature      // 400
    | Ignored           // 200: another event
    | MissingPaymentId  // 200
    | Processed         // 200 "ok", whatever happened to the record
    | Failed            // 200 "error": the body did not parse

  function StatusCode(o: WebhookOutcome): int {
    if o.BadRequest? || o.BadSignature? then 400 else 200
  }

  /** The webhook's record: like the verify handler's, except that a falsy
      `enrollment_id` is stored as null. */
  function WebhookRecord(p: FetchedPayment): (row: PaymentRow)
    ensures row == Normalise(p.notes, if Truthy(p.notes.enrollmentId) then p.notes.enrollmentId else Null,
                             p.id, p.orderId, p.acquirer)
    ensures !row.status && row.paymentId == p.id
    ensures !Truthy(p.notes.enrollmentId) ==> row.enrollmentId == Null
  {
    Normalise(p.notes, if Truthy(p.notes.enrollmentId) then p.notes.enrollmentId else Null,
              p.id, p.orderId, p.acquirer)
  }

  /** A webhook secret is configured, a signature header is sent, and it is
      the HMAC of the raw body under the secret. */
  predicate Accepted(secret: Option<string>, signature: Option<string>, rawBody: string,
                     hmac: (string, string) -> string) {
    Present(secret) && Present(signature) && signature.value == hmac(secret.value, rawBody)
  }

  /** razorpayWebhook: the response and the payment table afterwards.
      `body` is `None` when the raw body is not JSON and `fetched` is `None`
      when the SDK fetch throws; `lookupFails` and `insertFails` are store
      errors the handler only logs. */
  function WebhookSpec(rows: seq<PaymentRow>, secret: Option<string>, signature: Option<string>,
                       rawBody: string, hmac: (string, string) -> string, body: Option<WebhookBody>,
                       fetched: Option<FetchedPayment>, lookupFails: bool, insertFails: bool)
    : (r: (WebhookOutcome, seq<PaymentRow>))
    ensures r.0 == BadRequest <==> !Present(secret) || !Present(signature)
    ensures r.0 == BadSignature <==>
              Present(secret) && Present(signature) && signature.value != hmac(secret.value, rawBody)
    ensures StatusCode(r.0) == 400 <==>
              !Present(secret) || !Present(signature) || signature.value != hmac(secret.value, rawBody)
    ensures r.0 == Failed <==> Accepted(secret, signature, rawBody, hmac) && body.None?
    ensures r.0 == Ignored <==>
              Accepted(secret, signature, rawBody, hmac) && body.Some? && body.value.event != Str("payment.captured")
    ensures r.0 == MissingPaymentId <==>
              && Accepted(secret, signature, rawBody, hmac) && body.Some? && body.value.event == Str("payment.captured")
              && !Truthy(body.value.paymentEntityId)
    ensures r.0 != Processed ==> r.1 == rows
    ensures r.0 == Processed <==>
              && Accepted(secret, signature, rawBody, hmac)
              && body.Some? && body.value.event == Str("payment.captured")
              && Truthy(body.value.paymentEntityId)
    ensures r.0 == Processed && fetched.Some? && !insertFails && WithPaymentId(rows, fetched.value.id) == [] ==>
              r.1 == rows + [WebhookRecord(fetched.value)]
    ensures r.1 != rows ==>
              && fetched.Some?
              && WithPaymentId(rows, fetched.value.id) == []
              && r.1 == rows + [WebhookRecord(fetched.value)]
  {
    if !Present(secret) || !Present(signature) then (BadRequest, rows)
    else if signature.value != hmac(secret.value, rawBody) then (BadSignature, rows)
    else if body.None? then (Failed, rows)
    else if body.value.event != Str("payment.captured") then (Ignored, rows)
    else if !Truthy(body.value.paymentEntityId) then (MissingPaymentId, rows)
    else if fetched.None? then (Processed, rows)
    else
      var p := fetched.value;
      var existing := if lookupFails then None else Single(WithPaymentId(rows, p.id));
      if existing.Some? then (Processed, rows)
      else
        match InsertPayment(rows, p.id, insertFails)
        case Inserted => (Processed, rows + [WebhookRecord(p)])
        case Duplicate => (Processed, rows)
        case OtherError => (Processed, rows)
  }

  /** The webhook never breaks the one-row-per-payment constraint. */
  lemma WebhookKeepsOnePerPaymentId(rows: seq<PaymentRow>, secret: Option<string>, signature: Option<string>,
                                    rawBody: string, hmac: (string, string) -> string, body: Option<WebhookBody>,
                                    fetched: Option<FetchedPayment>, lookupFails: bool, insertFails: bool)
    requires OnePerPaymentId(rows)
    ensures OnePerPaymentId(WebhookSpec(rows, secret, signature, rawBody, hmac, body, fetched, lookupFails, insertFails).1)
  {
    var r := WebhookSpec(rows, secret, signature, rawBody, hmac, body, fetched, lookupFails, insertFails);
    if r.1 != rows {
      AppendFreshKeepsOnePerPaymentId(rows, WebhookRecord(fetched.value));
    }
  }

  /** A payment the verify handler stored is not recorded again when its
      webhook arrives, and the reverse holds too. */
  lemma VerifyThenWebhook(rows: seq<PaymentRow>, orderId: string, paymentId: string, signature: string,
                          hmac: string -> string, notes: OrderNotes, acquirer: Acquirer, faults: VerifyFaults,
                          secret: Option<string>, header: Option<string>, rawBody: string,
                          webhookHmac: (string, string) -> string, body: Option<WebhookBody>,
                          p: FetchedPayment, lookupFails: bool, insertFails: bool)
    requires VerifySpec(rows, orderId, paymentId, signature, hmac, notes, acquirer, faults).0.Stored?
    requires VerifySpec(rows, orderId, paymentId, signature, hmac, notes, acquirer, faults).0.payment.Some?
    requires p.id == paymentId
    ensures var once := VerifySpec(rows, orderId, paymentId, signature, hmac, notes, acquirer, faults).1;
            WebhookSpec(once, secret, header, rawBody, webhookHmac, body, Some(p), lookupFails, insertFails).1 == once
  {
    var once := VerifySpec(rows, orderId, paymentId, signature, hmac, notes, acquirer, faults);
    assert once.0.payment.value in WithPaymentId(once.1, paymentId);
  }

  lemma WebhookThenVerify(rows: seq<PaymentRow>, secret: Option<string>, header: Option<string>,
                          rawBody: string, webhookHmac: (string, string) -> string, body: Option<WebhookBody>,
                          p: FetchedPayment, lookupFails: bool, insertFails: bool,
                          orderId: string, signature: string, hmac: string -> string, notes: OrderNotes,
                          acquirer: Acquirer, faults: VerifyFaults)
    requires WebhookSpec(rows, secret, header, rawBody, webhookHmac, body, Some(p), lookupFails, insertFails).1 != rows
    ensures var once := WebhookSpec(rows, secret, header, rawBody, webhookHmac, body, Some(p), lookupFails, insertFails).1;
            VerifySpec(once, orderId, p.id, signature, hmac, notes, acquirer, faults).1 == once
  {
    var once := WebhookSpec(rows, secret, header, rawBody, webhookHmac, body, Some(p), lookupFails, insertFails).1;
    assert WebhookRecord(p) in WithPaymentId(once, p.id);
  }

  /** razorpayWebhook over the payment table. */
  method HandleWebhook(t: PaymentTable, secret: Option<string>, signature: Option<string>, rawBody: string,
                       hmac: (string, string) -> string, body: Option<WebhookBody>,
                       fetched: Option<FetchedPayment>, lookupFails: bool, insertFails: bool)
    returns (r: WebhookOutcome)
    modifies t
    ensures (r, t.rows) == WebhookSpec(old(t.rows), secret, signature, rawBody, hmac, body, fetched, lookupFails, insertFails)
  {
    if !Present(secret) || !Present(signature) {
      return BadRequest;
    }
    if signature.value != hmac(secret.value, rawBody) {
      return BadSignature;
    }
    if body.None? {
      return Failed;
    }
    if body.value.event != Str("payment.captured") {
      return Ignored;
    }
    if !Truthy(body.value.paymentEntityId) {
      return MissingPaymentId;
    }
    if fetched.Some? {
      var p := fetched.value;
      var existing: Option<PaymentRow> := None;
      if !lookupFails {
        existing := Single(WithPaymentId(t.rows, p.id));
      }
      if existing.None? && InsertPayment(t.rows, p.id, insertFails) == Inserted {
        t.rows := t.rows + [WebhookRecord(p)];
      }
    }
    r := Processed;
  }
}
