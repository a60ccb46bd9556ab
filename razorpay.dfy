/** Razorpay checkout (controllers/razorpayController.js): order creation's
    input check and payment verification, which records a verified payment in
    `student_course_payment` at most once per `payment_id`. The HMAC and the
    Razorpay SDK are parameters: `hmac` is HMAC-SHA256 under the server's
    secret, as hex, and the fetched order notes and acquirer data are inputs. */
module Razorpay {
  import opened Common
  import opened JsValues

  // ---------------------------------------------------------------------
  // createOrder
  // ---------------------------------------------------------------------

  datatype OrderOutcome = FeesRequired | OrderFailed | OrderCreated

  /** createOrder: a falsy `final_fees` is refused with 400 before the SDK is
      called; an SDK failure answers 500. */
  function CreateOrder(finalFees: JsValue, sdkFails: bool): (r: OrderOutcome)
    ensures r == FeesRequired <==> !Truthy(finalFees)
    ensures r == OrderCreated <==> Truthy(finalFees) && !sdkFails
  {
    if !Truthy(finalFees) then FeesRequired
    else if sdkFails then OrderFailed
    else OrderCreated
  }

  /** The check is JavaScript truthiness: a zero, empty, null or absent fee is
      refused, while the text "0" is let through. */
  lemma CreateOrderFalsyFees()
    ensures CreateOrder(Num(0), false) == FeesRequired
    ensures CreateOrder(Str(""), false) == FeesRequired
    ensures CreateOrder(Null, false) == FeesRequired
    ensures CreateOrder(Undefined, false) == FeesRequired
    ensures CreateOrder(Str("0"), false) == OrderCreated
  {
  }

  // ---------------------------------------------------------------------
  // The payment record
  // ---------------------------------------------------------------------

  /** The `notes` of a Razorpay order or payment (`notes || {}`). */
  datatype OrderNotes = OrderNotes(
    enrollmentId: JsValue, registrationNumber: JsValue, studentName: JsValue,
    email: JsValue, contact: JsValue, courseName: JsValue,
    courseDuration: JsValue, originalFees: JsValue, discountPercentage: JsValue,
    finalFees: JsValue, paymentType: JsValue, emiDuration: JsValue, currentEmi: JsValue)

  const NoNotes := OrderNotes(Undefined, Undefined, Undefined, Undefined, Undefined, Undefined,
                              Undefined, Undefined, Undefined, Undefined, Undefined, Undefined, Undefined)

  /** `acquirer_data?.rrn` and `acquirer_data?.upi_transaction_id`. */
  datatype Acquirer = Acquirer(rrn: JsValue, upiTransactionId: JsValue)

  /** A row of `student_course_payment`. `emiDuration` and `currentEmi` are
      `None` for SQL null, which is also what a NaN becomes in JSON. */
  datatype PaymentRow = PaymentRow(
    paymentId: string, orderId: string, enrollmentId: JsValue,
    registrationNumber: JsValue, studentName: JsValue, email: JsValue, contact: JsValue,
    courseName: JsValue, courseDuration: int, originalFees: int, discountPercentage: int,
    finalFees: int, paymentType: JsValue, emiDuration: Option<int>, currentEmi: Option<int>,
    bankRrn: JsValue, status: bool)

  /** The record both the verify handler and the webhook insert. */
  function Normalise(notes: OrderNotes, enrollmentId: JsValue, paymentId: string, orderId: string,
                     acquirer: Acquirer): (row: PaymentRow)
    ensures !row.status
    ensures row.paymentId == paymentId && row.orderId == orderId
    ensures Truthy(row.paymentType)
    ensures row.paymentType == (if Truthy(notes.paymentType) then notes.paymentType else Str("full"))
    ensures notes.paymentType != Str("emi") ==> row.emiDuration.None? && row.currentEmi.None?
    ensures notes.paymentType == Str("emi") ==>
              row.emiDuration == ToNumber(notes.emiDuration) && row.currentEmi == ToNumber(notes.currentEmi)
    ensures ToNumber(notes.finalFees).None? ==> row.finalFees == 0
    ensures ToNumber(notes.finalFees).Some? ==> row.finalFees == ToNumber(notes.finalFees).value
    ensures row.bankRrn == (if Truthy(acquirer.rrn) then acquirer.rrn
                            else if Truthy(acquirer.upiTransactionId) then acquirer.upiTransactionId
                            else Null)
  {
    var isEmi := notes.paymentType == Str("emi");
    PaymentRow(
      paymentId, orderId, enrollmentId,
      notes.registrationNumber, notes.studentName, notes.email, notes.contact, notes.courseName,
      NumberOrZero(notes.courseDuration), NumberOrZero(notes.originalFees),
      NumberOrZero(notes.discountPercentage), NumberOrZero(notes.finalFees),
      if Truthy(notes.paymentType) then notes.paymentType else Str("full"),
      if isEmi then ToNumber(notes.emiDuration) else None,
      if isEmi then ToNumber(notes.currentEmi) else None,
      if Truthy(acquirer.rrn) then acquirer.rrn
      else if Truthy(acquirer.upiTransactionId) then acquirer.upiTransactionId
      else Null,
      false)
  }

  /** A stored row carries EMI fields only when its payment type is "emi";
      a row without a payment type is a full payment. */
  lemma NormalisedTypeAgrees(notes: OrderNotes, enrollmentId: JsValue, paymentId: string, orderId: string,
                             acquirer: Acquirer)
    ensures var row := Normalise(notes, enrollmentId, paymentId, orderId, acquirer);
            && (row.emiDuration.Some? || row.currentEmi.Some? ==> row.paymentType == Str("emi"))
            && (!Truthy(notes.paymentType) ==> row.paymentType == Str("full") && row.emiDuration.None?)
  {
  }

  // ---------------------------------------------------------------------
  // The payment table
  // ---------------------------------------------------------------------

  /** The rows the `eq("payment_id", id)` query matches, in table order. */
  function WithPaymentId(rows: seq<PaymentRow>, paymentId: string): (m: seq<PaymentRow>)
    ensures forall x :: x in m <==> x in rows && x.paymentId == paymentId
  {
    if rows == [] then []
    else
      var init := rows[..|rows| - 1];
      var last := rows[|rows| - 1];
      assert rows == init + [last];
      var rest := WithPaymentId(init, paymentId);
      if last.paymentId == paymentId then rest + [last] else rest
  }

  /** The unique constraint on `payment_id` both handlers rely on. */
  predicate OnePerPaymentId(rows: seq<PaymentRow>) {
    forall i, j :: 0 <= i < j < |rows| ==> rows[i].paymentId != rows[j].paymentId
  }

  lemma {:induction false} NoneWithPaymentId(rows: seq<PaymentRow>, paymentId: string)
    requires forall k :: 0 <= k < |rows| ==> rows[k].paymentId != paymentId
    ensures WithPaymentId(rows, paymentId) == []
  {
    if rows != [] {
      NoneWithPaymentId(rows[..|rows| - 1], paymentId);
    }
  }

  /** Under the constraint, a recorded payment is the only row with its id. */
  lemma {:induction false} SoleWithPaymentId(rows: seq<PaymentRow>, row: PaymentRow)
    requires OnePerPaymentId(rows)
    requires row in rows
    ensures WithPaymentId(rows, row.paymentId) == [row]
  {
    var init := rows[..|rows| - 1];
    var last := rows[|rows| - 1];
    assert OnePerPaymentId(init) by {
      forall i, j | 0 <= i < j < |init| ensures init[i].paymentId != init[j].paymentId {
        assert init[i] == rows[i] && init[j] == rows[j];
      }
    }
    if last == row {
      forall k | 0 <= k < |init| ensures init[k].paymentId != row.paymentId {
        assert rows[k] == init[k];
      }
      NoneWithPaymentId(init, row.paymentId);
    } else {
      assert rows == init + [last];
      assert row in init;
      var k :| 0 <= k < |init| && init[k] == row;
      assert rows[k] == row;
      SoleWithPaymentId(init, row);
    }
  }

  /** Appending a row whose id is not yet recorded keeps the constraint. */
  lemma AppendFreshKeepsOnePerPaymentId(rows: seq<PaymentRow>, row: PaymentRow)
    requires OnePerPaymentId(rows)
    requires WithPaymentId(rows, row.paymentId) == []
    ensures OnePerPaymentId(rows + [row])
  {
    forall i | 0 <= i < |rows| ensures rows[i].paymentId != row.paymentId {
      assert rows[i] in rows;
    }
  }

  /** How an insert of `row` ends: the store refuses a recorded id with the
      unique-violation code 23505; otherwise it may fail for another reason. */
  datatype InsertResult = Inserted | Duplicate | OtherError

  function InsertPayment(rows: seq<PaymentRow>, paymentId: string, otherError: bool): (r: InsertResult)
    ensures r == Duplicate <==> WithPaymentId(rows, paymentId) != []
  {
    if WithPaymentId(rows, paymentId) != [] then Duplicate
    else if otherError then OtherError
    else Inserted
  }

  // ---------------------------------------------------------------------
  // verifyPayment
  // ---------------------------------------------------------------------

  /** Which foreign or store calls fail: the SDK fetches (which throw), the
      existence lookup and the re-fetch after a duplicate (whose errors are
      only logged), and the insert for a reason other than a duplicate. */
  datatype VerifyFaults = VerifyFaults(sdk: bool, lookup: bool, insert: bool, refetch: bool)

  datatype VerifyOutcome =
    | InvalidSignature                  // 400
    | ServerError                       // 500
    | Stored(payment: Option<PaymentRow>) // 200; `payment` is [row] or null

  /** verifyPayment: the response and the payment table afterwards. */
  function VerifySpec(rows: seq<PaymentRow>, orderId: string, paymentId: string, signature: string,
                      hmac: string -> string, notes: OrderNotes, acquirer: Acquirer,
                      faults: VerifyFaults): (r: (VerifyOutcome, seq<PaymentRow>))
    ensures r.0 == InvalidSignature <==> signature != hmac(orderId + "|" + paymentId)
    ensures r.0 == ServerError <==>
              signature == hmac(orderId + "|" + paymentId)
              && (faults.sdk || (WithPaymentId(rows, paymentId) == [] && faults.insert))
    ensures WithPaymentId(rows, paymentId) != [] ==> r.1 == rows
    ensures r.1 == rows || r.1 == rows + [Normalise(notes, notes.enrollmentId, paymentId, orderId, acquirer)]
    ensures r.1 != rows ==> r.0 == Stored(Some(Normalise(notes, notes.enrollmentId, paymentId, orderId, acquirer)))
    ensures signature == hmac(orderId + "|" + paymentId) && !faults.sdk
            && WithPaymentId(rows, paymentId) == [] && !faults.insert ==>
              var row := Normalise(notes, notes.enrollmentId, paymentId, orderId, acquirer);
              r == (Stored(Some(row)), rows + [row])
    ensures r.0.Stored? && r.0.payment.Some? ==> r.0.payment.value in r.1 && r.0.payment.value.paymentId == paymentId
  {
    if signature != hmac(orderId + "|" + paymentId) then (InvalidSignature, rows)
    else if faults.sdk then (ServerError, rows)
    else
      var existing := if faults.lookup then None else Single(WithPaymentId(rows, paymentId));
      if existing.Some? then
        assert existing.value in WithPaymentId(rows, paymentId);
        (Stored(existing), rows)
      else
        match InsertPayment(rows, paymentId, faults.insert)
        case Duplicate =>
          var after := if faults.refetch then None else Single(WithPaymentId(rows, paymentId));
          assert after.Some? ==> after.value in WithPaymentId(rows, paymentId);
          (Stored(after), rows)
        case OtherError => (ServerError, rows)
        case Inserted =>
          var row := Normalise(notes, notes.enrollmentId, paymentId, orderId, acquirer);
          (Stored(Some(row)), rows + [row])
  }

  /** Verification never breaks the one-row-per-payment constraint, whatever
      fails along the way. */
  lemma VerifyKeepsOnePerPaymentId(rows: seq<PaymentRow>, orderId: string, paymentId: string,
                                   signature: string, hmac: string -> string, notes: OrderNotes,
                                   acquirer: Acquirer, faults: VerifyFaults)
    requires OnePerPaymentId(rows)
    ensures OnePerPaymentId(VerifySpec(rows, orderId, paymentId, signature, hmac, notes, acquirer, faults).1)
  {
    var r := VerifySpec(rows, orderId, paymentId, signature, hmac, notes, acquirer, faults);
    if r.1 != rows {
      AppendFreshKeepsOnePerPaymentId(rows, Normalise(notes, notes.enrollmentId, paymentId, orderId, acquirer));
    }
  }

  /** Verifying a payment that is already recorded inserts nothing and, with
      the lookup working, answers with the recorded row. */
  lemma VerifyRecordedPayment(rows: seq<PaymentRow>, row: PaymentRow, orderId: string,
                              signature: string, hmac: string -> string, notes: OrderNotes,
                              acquirer: Acquirer, faults: VerifyFaults)
    requires OnePerPaymentId(rows) && row in rows
    requires signature == hmac(orderId + "|" + row.paymentId)
    requires !faults.sdk && (!faults.lookup || !faults.refetch)
    ensures VerifySpec(rows, orderId, row.paymentId, signature, hmac, notes, acquirer, faults)
            == (Stored(Some(row)), rows)
  {
    SoleWithPaymentId(rows, row);
  }

  /** Verifying the same payment twice leaves exactly one row for it when the
      first call stored it. */
  lemma VerifyTwice(rows: seq<PaymentRow>, orderId: string, paymentId: string, signature: string,
                    hmac: string -> string, notes: OrderNotes, notes2: OrderNotes, acquirer: Acquirer,
                    faults: VerifyFaults, faults2: VerifyFaults)
    requires OnePerPaymentId(rows)
    requires VerifySpec(rows, orderId, paymentId, signature, hmac, notes, acquirer, faults).0.Stored?
    requires VerifySpec(rows, orderId, paymentId, signature, hmac, notes, acquirer, faults).0.payment.Some?
    ensures var once := VerifySpec(rows, orderId, paymentId, signature, hmac, notes, acquirer, faults);
            var twice := VerifySpec(once.1, orderId, paymentId, signature, hmac, notes2, acquirer, faults2);
            twice.1 == once.1 && |WithPaymentId(twice.1, paymentId)| == 1
  {
    var once := VerifySpec(rows, orderId, paymentId, signature, hmac, notes, acquirer, faults);
    VerifyKeepsOnePerPaymentId(rows, orderId, paymentId, signature, hmac, notes, acquirer, faults);
    SoleWithPaymentId(once.1, once.0.payment.value);
  }

  /** `student_course_payment`, as far as these handlers touch it. */
  class PaymentTable {
    var rows: seq<PaymentRow>

    constructor(initial: seq<PaymentRow>)
      ensures rows == initial
    {
      rows := initial;
    }

    /** verifyPayment: insert-if-absent keyed on the payment id. */
    method Verify(orderId: string, paymentId: string, signature: string, hmac: string -> string,
                  notes: OrderNotes, acquirer: Acquirer, faults: VerifyFaults) returns (r: VerifyOutcome)
      modifies this
      ensures (r, rows) == VerifySpec(old(rows), orderId, paymentId, signature, hmac, notes, acquirer, faults)
    {
      if signature != hmac(orderId + "|" + paymentId) {
        return InvalidSignature;
      }
      if faults.sdk {
        return ServerError;
      }
      var existing: Option<PaymentRow> := None;
      if !faults.lookup {
        existing := Single(WithPaymentId(rows, paymentId));
      }
      var paymentRecord := existing;
      if existing.None? {
        var result := InsertPayment(rows, paymentId, faults.insert);
        if result == Duplicate {
          if !faults.refetch {
            paymentRecord := Single(WithPaymentId(rows, paymentId));
          }
        } else if result == OtherError {
          return ServerError;
        } else {
          var row := Normalise(notes, notes.enrollmentId, paymentId, orderId, acquirer);
          rows := rows + [row];
          paymentRecord := Some(row);
        }
      }
      r := Stored(paymentRecord);
    }
  }
}
