/**
 * The gateway payment path: `createPaymentIntent` records a pending ledger
 * entry and asks the gateway for a charge; `handleWebhook` settles that entry
 * when the gateway reports the payment succeeded, then runs the same goal
 * reconciliation as the direct path.
 */
module PaymentController {
  import opened Wrappers
  import opened Text
  import opened Goal
  import opened Currency
  import opened DonationModel
  import opened RequestModel
  import opened NotificationModel
  import opened Db
  import opened DonationController

  /** The ids the gateway carries back to the webhook. */
  datatype Metadata = Metadata(donationId: nat, requestId: nat, donorId: nat)

  /** What is sent to the gateway: the amount in the smallest currency unit, the lower-cased currency and the metadata. */
  datatype Charge = Charge(amount: int, currency: string, metadata: Metadata)

  /** `Math.round(x * 100)`: paise or cents, halves rounded up. */
  function GatewayAmount(x: real): (cents: int)
    ensures x * 100.0 - 0.5 < cents as real <= x * 100.0 + 0.5
  {
    (x * 100.0 + 0.5).Floor
  }

  /** The placeholder transaction id `PEND-<now>` of an entry awaiting payment. */
  function PendingTransactionId(now: nat): string {
    "PEND-" + Decimal(now)
  }

  /**
   * The entry `createPaymentIntent` inserts: amount 0 until settlement, the
   * donor's amount as `originalAmount`, the upper-cased currency, rate 1.
   */
  function PendingEntry(id: nat, donorId: nat, requestId: nat, amount: real, currency: string, now: nat): (d: Donation)
    ensures d.id == id && d.donorId == donorId && d.requestId == requestId && d.createdAt == now
    ensures d.status == DonationStatus.Pending && d.amount == 0.0 && d.originalAmount == amount && d.exchangeRate == 1.0
    ensures d.transactionId == Some(PendingTransactionId(now)) && d.currency == Upper(currency)
    ensures ValidEntry(d)
  {
    UpperIsUpper(currency);
    Donation(id, donorId, requestId, 0.0, amount, Upper(currency), 1.0, Some(PendingTransactionId(now)),
             DonationStatus.Pending, DefaultPaymentMethod, now)
  }

  datatype IntentReply =
    | IntentRequestNotFound                             // 404
    | IntentNotAccepting                                // 400: the request is not approved
    | IntentFailed                                      // 500
    | IntentCreated(donationId: nat, charge: Charge)    // 200

  /**
   * `createPaymentIntent`. `amount` is None when the body's amount is missing
   * or not a number (the insert then fails its cast), `currency` None when it
   * is missing (`toUpperCase` throws), `gatewayAccepts` whether the gateway
   * creates the intent. A gateway failure answers 500 after the pending entry
   * was inserted, and the entry stays.
   */
  function CreateIntent(t: Tables, requestId: nat, donorId: nat, amount: Option<real>, currency: Option<string>,
                        now: nat, gatewayAccepts: bool): Outcome<IntentReply>
  {
    match FindRequest(t.requests, requestId)
    case None => Outcome(IntentRequestNotFound, t)
    case Some(k) =>
      if t.requests[k].status != Approved then Outcome(IntentNotAccepting, t)
      else if currency.None? || amount.None? || TransactionIdTaken(t.donations, PendingTransactionId(now), -1) then
        Outcome(IntentFailed, t)
      else
        var d := PendingEntry(t.nextId, donorId, requestId, amount.value, currency.value, now);
        var t1 := InsertDonation(t, d);
        if !gatewayAccepts then Outcome(IntentFailed, t1)
        else Outcome(IntentCreated(d.id, Charge(GatewayAmount(amount.value), Lower(currency.value),
                                               Metadata(d.id, requestId, donorId))), t1)
  }

  /**
   * A created intent names a new pending entry, carries its ids in the
   * metadata and charges the donor's amount to within half a unit; no
   * request's confirmed total moves until the payment settles.
   */
  lemma CreateIntentRecordsPending(t: Tables, requestId: nat, donorId: nat, amount: Option<real>, currency: Option<string>,
                                   now: nat, gatewayAccepts: bool, rid: nat)
    ensures var o := CreateIntent(t, requestId, donorId, amount, currency, now, gatewayAccepts);
      && RaisedTotal(o.after.donations, rid) == RaisedTotal(t.donations, rid)
      && (o.reply.IntentCreated? ==>
            && amount.Some? && currency.Some?
            && o.after.donations == t.donations + [PendingEntry(t.nextId, donorId, requestId, amount.value, currency.value, now)]
            && o.reply.donationId == t.nextId
            && o.reply.charge.metadata == Metadata(o.reply.donationId, requestId, donorId)
            && amount.value * 100.0 - 0.5 < o.reply.charge.amount as real <= amount.value * 100.0 + 0.5)
  {
    var o := CreateIntent(t, requestId, donorId, amount, currency, now, gatewayAccepts);
    if o.after != t {
      var d := PendingEntry(t.nextId, donorId, requestId, amount.value, currency.value, now);
      assert o.after.donations == t.donations + [d];
      RaisedAfterInsert(t.donations, d, rid);
    }
  }

  /** The answers before anything is written: 404, 400, and the 500s of a bad body or a taken placeholder id. */
  lemma CreateIntentGuards(t: Tables, requestId: nat, donorId: nat, amount: Option<real>, currency: Option<string>,
                           now: nat, gatewayAccepts: bool)
    ensures var o := CreateIntent(t, requestId, donorId, amount, currency, now, gatewayAccepts);
      && (o.reply.IntentRequestNotFound? <==> forall j :: 0 <= j < |t.requests| ==> t.requests[j].id != requestId)
      && (o.reply.IntentNotAccepting? <==>
            FindRequest(t.requests, requestId).Some? && t.requests[FindRequest(t.requests, requestId).value].status != Approved)
      && (o.reply.IntentRequestNotFound? || o.reply.IntentNotAccepting? ==> o.after == t)
      && (o.reply == IntentFailed && o.after == t <==>
            && FindRequest(t.requests, requestId).Some?
            && t.requests[FindRequest(t.requests, requestId).value].status == Approved
            && (currency.None? || amount.None? || TransactionIdTaken(t.donations, PendingTransactionId(now), -1)))
      && (o.reply == IntentFailed && o.after != t ==> !gatewayAccepts && |o.after.donations| == |t.donations| + 1)
  {
    var o := CreateIntent(t, requestId, donorId, amount, currency, now, gatewayAccepts);
    if o.after != t {
      assert |o.after.donations| == |t.donations| + 1;
    }
  }

  lemma CreateIntentKeepsValid(t: Tables, requestId: nat, donorId: nat, amount: Option<real>, currency: Option<string>,
                               now: nat, gatewayAccepts: bool)
    requires TablesValid(t)
    ensures TablesValid(CreateIntent(t, requestId, donorId, amount, currency, now, gatewayAccepts).after)
  {
    match FindRequest(t.requests, requestId)
    case None =>
    case Some(k) =>
      if t.requests[k].status == Approved && currency.Some? && amount.Some? &&
         !TransactionIdTaken(t.donations, PendingTransactionId(now), -1) {
        InsertDonationKeepsValid(t, PendingEntry(t.nextId, donorId, requestId, amount.value, currency.value, now));
      }
  }

  /** `createPaymentIntent` on the store, step by step as `CreateIntent` describes it. */
  method CreatePaymentIntent(db: Store, requestId: nat, donorId: nat, amount: Option<real>, currency: Option<string>,
                             now: nat, gatewayAccepts: bool) returns (reply: IntentReply)
    requires db.Valid()
    modifies db
    ensures db.Valid()
    ensures reply == CreateIntent(old(db.Snapshot()), requestId, donorId, amount, currency, now, gatewayAccepts).reply
    ensures db.Snapshot() == CreateIntent(old(db.Snapshot()), requestId, donorId, amount, currency, now, gatewayAccepts).after
  {
    ghost var t := db.Snapshot();
    var found := FindRequest(db.requests, requestId);
    if found.None? {
      return IntentRequestNotFound;
    }
    if db.requests[found.value].status != Approved {
      return IntentNotAccepting;
    }
    if currency.None? || amount.None? || TransactionIdTaken(db.donations, PendingTransactionId(now), -1) {
      return IntentFailed;
    }
    var cents := GatewayAmount(amount.value);
    var d := PendingEntry(db.nextId, donorId, requestId, amount.value, currency.value, now);
    db.AddDonation(d);
    assert db.Snapshot() == InsertDonation(t, d);
    if !gatewayAccepts {
      return IntentFailed;
    }
    reply := IntentCreated(d.id, Charge(cents, Lower(currency.value), Metadata(d.id, requestId, donorId)));
  }

  /** A verified gateway event: its type, the payment intent's id and the metadata sent with the charge. */
  datatype PaymentEvent = PaymentEvent(kind: string, intentId: string, metadata: Metadata)

  const SucceededEvent: string := "payment_intent.succeeded"

  datatype WebhookReply =
    | BadSignature          // 400
    | Received              // 200
    | DonationNotFound      // 404
    | SaveFailed            // 500: the settled entry failed validation or the unique index
    | NotificationFailed    // 500: the goal notification could not be created; the earlier writes stay

  /** The entry as the webhook settles it: success, the intent's id, the INR amount and the rate used. */
  function Settled(d: Donation, intentId: string, fetchedRate: Option<real>): (s: Donation)
    ensures s.id == d.id && s.requestId == d.requestId && s.donorId == d.donorId && s.currency == d.currency
    ensures s.originalAmount == d.originalAmount && s.createdAt == d.createdAt
    ensures s.status == Success && s.transactionId == Some(intentId)
    ensures s.amount == d.originalAmount * s.exchangeRate
    ensures d.currency == "USD" ==> s.exchangeRate == RateUsed(fetchedRate)
    ensures d.currency != "USD" ==> s.exchangeRate == 1.0
  {
    var c := Convert(d.currency, d.originalAmount, fetchedRate);
    d.(status := Success, transactionId := Some(intentId), amount := c.amount, exchangeRate := c.rate)
  }

  /**
   * `handleWebhook`. `signatureValid` is the outcome of the signature check,
   * `fetchedRate` the rate service's answer, and `notificationFails` whether
   * `Notification.create` throws. The thank-you e-mail has its own catch and
   * changes nothing here.
   */
  function Webhook(t: Tables, signatureValid: bool, event: PaymentEvent, fetchedRate: Option<real>, now: nat,
                   notificationFails: bool): Outcome<WebhookReply>
  {
    if !signatureValid then Outcome(BadSignature, t)
    else if event.kind != SucceededEvent then Outcome(Received, t)
    else match FindDonation(t.donations, event.metadata.donationId)
      case None => Outcome(DonationNotFound, t)
      case Some(j) =>
        if t.donations[j].status == Success then Outcome(Received, t)
        else
          var s := Settled(t.donations[j], event.intentId, fetchedRate);
          if s.amount < 0.0 || TransactionIdTaken(t.donations, event.intentId, j) then Outcome(SaveFailed, t)
          else
            var t1 := ReplaceDonation(t, j, s);
            match FindRequest(t1.requests, event.metadata.requestId)
            case None => Outcome(Received, t1)
            case Some(k) =>
              var g := Reconcile(t1, k, FundedMessage(t1.requests[k].patientname), now, notificationFails);
              if g.reply && notificationFails then Outcome(NotificationFailed, g.after)
              else Outcome(Received, g.after)
  }

  /** A forged or foreign event changes nothing. */
  lemma WebhookIgnores(t: Tables, signatureValid: bool, event: PaymentEvent, fetchedRate: Option<real>, now: nat,
                       notificationFails: bool)
    ensures var o := Webhook(t, signatureValid, event, fetchedRate, now, notificationFails);
      && (!signatureValid <==> o.reply == BadSignature)
      && (!signatureValid || event.kind != SucceededEvent ==> o.after == t)
      && (signatureValid && event.kind != SucceededEvent ==> o.reply == Received)
  {
  }

  /**
   * Settlement: the entry the metadata names becomes a success entry carrying
   * the intent id and the converted amount, no other entry changes, and the
   * confirmed total of its request grows by exactly that amount.
   */
  lemma WebhookSettles(t: Tables, event: PaymentEvent, fetchedRate: Option<real>, now: nat, notificationFails: bool)
    requires FindDonation(t.donations, event.metadata.donationId).Some?
    ensures var o := Webhook(t, true, event, fetchedRate, now, notificationFails);
      var j := FindDonation(t.donations, event.metadata.donationId).value;
      var d := t.donations[j];
      event.kind == SucceededEvent && d.status != Success && o.reply != SaveFailed ==>
        && o.after.donations == t.donations[j := Settled(d, event.intentId, fetchedRate)]
        && RaisedTotal(o.after.donations, d.requestId) ==
             RaisedTotal(t.donations, d.requestId) + Settled(d, event.intentId, fetchedRate).amount
  {
    var o := Webhook(t, true, event, fetchedRate, now, notificationFails);
    var j := FindDonation(t.donations, event.metadata.donationId).value;
    var d := t.donations[j];
    if event.kind == SucceededEvent && d.status != Success && o.reply != SaveFailed {
      var s := Settled(d, event.intentId, fetchedRate);
      var t1 := ReplaceDonation(t, j, s);
      RaisedAfterUpdate(t.donations, j, s, d.requestId);
      match FindRequest(t1.requests, event.metadata.requestId)
      case None =>
      case Some(k) =>
        ReconcileEffect(t1, k, FundedMessage(t1.requests[k].patientname), now, notificationFails);
    }
  }

  /**
   * After settlement the request named by the metadata is marked achieved
   * exactly when its goal is met, whatever status it had; a failing
   * notification answers 500 but keeps the settlement and the status change.
   * A goal notice is added whenever the goal is met and creating it does not
   * throw, without looking for one that already exists.
   */
  lemma WebhookReconciles(t: Tables, event: PaymentEvent, fetchedRate: Option<real>, now: nat, notificationFails: bool)
    ensures var o := Webhook(t, true, event, fetchedRate, now, notificationFails);
      var k := FindRequest(t.requests, event.metadata.requestId);
      (o.reply == Received || o.reply == NotificationFailed) && o.after != t && k.Some? ==>
        && (o.after.requests[k.value].status == Achieved <==>
              GoalMet(GoalAsWritten(t.requests[k.value].donationamount), RaisedTotal(o.after.donations, event.metadata.requestId))
              || t.requests[k.value].status == Achieved)
        && (o.reply == NotificationFailed ==> o.after.requests[k.value].status == Achieved && notificationFails)
        && GoalNoticeCount(o.after.notifications, event.metadata.requestId) ==
             GoalNoticeCount(t.notifications, event.metadata.requestId) +
             (if GoalMet(GoalAsWritten(t.requests[k.value].donationamount), RaisedTotal(o.after.donations, event.metadata.requestId))
                 && !notificationFails then 1 else 0)
  {
    var o := Webhook(t, true, event, fetchedRate, now, notificationFails);
    if o.after != t && event.kind == SucceededEvent {
      var j := FindDonation(t.donations, event.metadata.donationId).value;
      var s := Settled(t.donations[j], event.intentId, fetchedRate);
      var t1 := ReplaceDonation(t, j, s);
      match FindRequest(t1.requests, event.metadata.requestId)
      case None =>
      case Some(k) =>
        ReconcileEffect(t1, k, FundedMessage(t1.requests[k].patientname), now, notificationFails);
    }
  }

  /**
   * The webhook does not look for an existing goal notice: a settlement that
   * meets the goal of a request already notified gives it a second one.
   */
  lemma WebhookRepeatsNotice(t: Tables, event: PaymentEvent, fetchedRate: Option<real>, now: nat)
    requires HasGoalNotice(t.notifications, event.metadata.requestId)
    ensures var o := Webhook(t, true, event, fetchedRate, now, false);
      var k := FindRequest(t.requests, event.metadata.requestId);
      o.reply == Received && o.after != t && k.Some? &&
      GoalMet(GoalAsWritten(t.requests[k.value].donationamount), RaisedTotal(o.after.donations, event.metadata.requestId)) ==>
        GoalNoticeCount(o.after.notifications, event.metadata.requestId) >= 2
  {
    WebhookReconciles(t, event, fetchedRate, now, false);
    GoalNoticeCountPositive(t.notifications, event.metadata.requestId);
  }

  lemma WebhookKeepsValid(t: Tables, signatureValid: bool, event: PaymentEvent, fetchedRate: Option<real>, now: nat,
                          notificationFails: bool)
    requires TablesValid(t)
    ensures TablesValid(Webhook(t, signatureValid, event, fetchedRate, now, notificationFails).after)
  {
    if signatureValid && event.kind == SucceededEvent {
      match FindDonation(t.donations, event.metadata.donationId)
      case None =>
      case Some(j) =>
        var s := Settled(t.donations[j], event.intentId, fetchedRate);
        if t.donations[j].status != Success && !(s.amount < 0.0 || TransactionIdTaken(t.donations, event.intentId, j)) {
          ReplaceDonationKeepsValid(t, j, s);
          var t1 := ReplaceDonation(t, j, s);
          match FindRequest(t1.requests, event.metadata.requestId)
          case None =>
          case Some(k) =>
            ReconcileKeepsValid(t1, k, FundedMessage(t1.requests[k].patientname), now, notificationFails);
        }
    }
  }

  /** The entry `id` exists and has settled. */
  predicate IsSettled(t: Tables, id: nat) {
    FindDonation(t.donations, id).Some? && t.donations[FindDonation(t.donations, id).value].status == Success
  }

  /** A delivery that answered 200 or failed only at the notification leaves the entry settled. */
  lemma DeliverySettles(t: Tables, event: PaymentEvent, fetchedRate: Option<real>, now: nat, notificationFails: bool)
    requires event.kind == SucceededEvent
    ensures var o := Webhook(t, true, event, fetchedRate, now, notificationFails);
      o.reply == Received || o.reply == NotificationFailed ==> IsSettled(o.after, event.metadata.donationId)
  {
    var o := Webhook(t, true, event, fetchedRate, now, notificationFails);
    var id := event.metadata.donationId;
    if o.reply == Received || o.reply == NotificationFailed {
      var j := FindDonation(t.donations, id).value;
      if t.donations[j].status != Success {
        var s := Settled(t.donations[j], event.intentId, fetchedRate);
        var t1 := ReplaceDonation(t, j, s);
        assert forall i :: 0 <= i < |t1.donations| ==> t1.donations[i].id == t.donations[i].id;
        assert FindDonation(t1.donations, id) == Some(j);
        match FindRequest(t1.requests, event.metadata.requestId)
        case None =>
        case Some(k) =>
          ReconcileEffect(t1, k, FundedMessage(t1.requests[k].patientname), now, notificationFails);
      }
    }
  }

  /**
   * Redelivery of the event for a settled entry answers 200 and changes
   * nothing, whatever the rate and the clock say now. In particular a goal
   * notification lost to a failure on the first delivery is not created by
   * the gateway's retry.
   */
  lemma RedeliveryIsNoOp(t: Tables, event: PaymentEvent, fetchedRate: Option<real>, now: nat, notificationFails: bool)
    requires IsSettled(t, event.metadata.donationId)
    ensures Webhook(t, true, event, fetchedRate, now, notificationFails) == Outcome(Received, t)
  {
  }

  /** Two deliveries of the same success event: the second is a no-op whenever the first got as far as settling. */
  lemma DoubleDelivery(t: Tables, event: PaymentEvent, rate1: Option<real>, rate2: Option<real>, now1: nat, now2: nat,
                       fails1: bool, fails2: bool)
    requires event.kind == SucceededEvent
    requires Webhook(t, true, event, rate1, now1, fails1).reply in {Received, NotificationFailed}
    ensures var first := Webhook(t, true, event, rate1, now1, fails1).after;
      Webhook(first, true, event, rate2, now2, fails2) == Outcome(Received, first)
  {
    DeliverySettles(t, event, rate1, now1, fails1);
    RedeliveryIsNoOp(Webhook(t, true, event, rate1, now1, fails1).after, event, rate2, now2, fails2);
  }

  /** `handleWebhook` on the store, step by step as `Webhook` describes it. */
  method HandleWebhook(db: Store, signatureValid: bool, event: PaymentEvent, fetchedRate: Option<real>, now: nat,
                       notificationFails: bool) returns (reply: WebhookReply)
    requires db.Valid()
    modifies db
    ensures db.Valid()
    ensures reply == Webhook(old(db.Snapshot()), signatureValid, event, fetchedRate, now, notificationFails).reply
    ensures db.Snapshot() == Webhook(old(db.Snapshot()), signatureValid, event, fetchedRate, now, notificationFails).after
  {
    ghost var t := db.Snapshot();
    if !signatureValid {
      return BadSignature;
    }
    if event.kind != SucceededEvent {
      return Received;
    }
    var found := FindDonation(db.donations, event.metadata.donationId);
    if found.None? {
      return DonationNotFound;
    }
    var j := found.value;
    var d := db.donations[j];
    if d.status == Success {
      return Received;
    }
    // Conversion: only USD is converted, at the live rate or the fallback.
    var converted := d.originalAmount;
    var currentRate := 1.0;
    if d.currency == "USD" {
      currentRate := RateUsed(fetchedRate);
      converted := d.originalAmount * currentRate;
    }
    var s := d.(status := Success, transactionId := Some(event.intentId), amount := converted, exchangeRate := currentRate);
    assert s == Settled(d, event.intentId, fetchedRate);
    if converted < 0.0 || TransactionIdTaken(db.donations, event.intentId, j) {
      return SaveFailed;
    }
    db.UpdateDonation(j, s);
    assert db.Snapshot() == ReplaceDonation(t, j, s);
    var request := FindRequest(db.requests, event.metadata.requestId);
    if request.None? {
      return Received;
    }
    var k := request.value;
    var achieved := CheckGoal(db, k, FundedMessage(db.requests[k].patientname), now, notificationFails);
    if achieved && notificationFails {
      return NotificationFailed;
    }
    reply := Received;
  }

  /** A success event for an unsettled entry whose settlement passes validation settles it and answers 200 or the notification's 500. */
  lemma WebhookSettlesPending(t: Tables, j: nat, event: PaymentEvent, fetchedRate: Option<real>, now: nat, notificationFails: bool)
    requires event.kind == SucceededEvent && FindDonation(t.donations, event.metadata.donationId) == Some(j)
    requires t.donations[j].status != Success
    requires Settled(t.donations[j], event.intentId, fetchedRate).amount >= 0.0
    requires !TransactionIdTaken(t.donations, event.intentId, j)
    ensures var o := Webhook(t, true, event, fetchedRate, now, notificationFails);
      && (o.reply == Received || o.reply == NotificationFailed)
      && o.after.donations == t.donations[j := Settled(t.donations[j], event.intentId, fetchedRate)]
  {
    var s := Settled(t.donations[j], event.intentId, fetchedRate);
    var t1 := ReplaceDonation(t, j, s);
    match FindRequest(t1.requests, event.metadata.requestId)
    case None =>
    case Some(k) =>
      ReconcileEffect(t1, k, FundedMessage(t1.requests[k].patientname), now, notificationFails);
  }

  /**
   * A settlement the store refuses, a negative amount or a transaction id
   * another entry holds, answers 500 and changes nothing; no other path
   * answers SaveFailed.
   */
  lemma WebhookSaveFails(t: Tables, event: PaymentEvent, fetchedRate: Option<real>, now: nat, notificationFails: bool)
    ensures var o := Webhook(t, true, event, fetchedRate, now, notificationFails);
      var found := FindDonation(t.donations, event.metadata.donationId);
      && (o.reply == SaveFailed <==>
            && event.kind == SucceededEvent && found.Some? && t.donations[found.value].status != Success
            && (Settled(t.donations[found.value], event.intentId, fetchedRate).amount < 0.0
                || TransactionIdTaken(t.donations, event.intentId, found.value)))
      && (o.reply == SaveFailed ==> o.after == t)
  {
  }

  /** What an accepted intent leaves for its webhook: the new pending entry, found by the metadata's id and not yet settled. */
  lemma IntentLeavesPending(t: Tables, requestId: nat, donorId: nat, amount: real, currency: string, now: nat,
                            intentId: string, fetchedRate: Option<real>)
    requires TablesValid(t) && amount >= 0.0
    requires fetchedRate.Some? ==> fetchedRate.value >= 0.0
    requires !TransactionIdTaken(t.donations, intentId, -1) && intentId != PendingTransactionId(now)
    ensures var o1 := CreateIntent(t, requestId, donorId, Some(amount), Some(currency), now, true);
      var j := |t.donations|;
      o1.reply.IntentCreated? ==>
        && o1.after.donations == t.donations + [PendingEntry(t.nextId, donorId, requestId, amount, currency, now)]
        && FindDonation(o1.after.donations, o1.reply.charge.metadata.donationId) == Some(j)
        && o1.after.donations[j].status != Success
        && Settled(o1.after.donations[j], intentId, fetchedRate).amount >= 0.0
        && !TransactionIdTaken(o1.after.donations, intentId, j)
  {
    var o1 := CreateIntent(t, requestId, donorId, Some(amount), Some(currency), now, true);
    CreateIntentRecordsPending(t, requestId, donorId, Some(amount), Some(currency), now, true, requestId);
    if o1.reply.IntentCreated? {
      var d := PendingEntry(t.nextId, donorId, requestId, amount, currency, now);
      FindAfterInsert(t.donations, d, t.nextId);
      ConvertNonNegative(d.currency, amount, fetchedRate);
    }
  }

  /**
   * The whole gateway path: an intent created for a non-negative amount, then
   * the gateway's success event for it, settles the new entry at the converted
   * amount, provided the intent id is not already on another entry.
   */
  lemma IntentThenWebhook(t: Tables, requestId: nat, donorId: nat, amount: real, currency: string, now: nat,
                          intentId: string, fetchedRate: Option<real>, later: nat, notificationFails: bool)
    requires TablesValid(t) && amount >= 0.0
    requires fetchedRate.Some? ==> fetchedRate.value >= 0.0
    requires !TransactionIdTaken(t.donations, intentId, -1) && intentId != PendingTransactionId(now)
    ensures var o1 := CreateIntent(t, requestId, donorId, Some(amount), Some(currency), now, true);
      o1.reply.IntentCreated? ==>
        var o2 := Webhook(o1.after, true, PaymentEvent(SucceededEvent, intentId, o1.reply.charge.metadata), fetchedRate, later, notificationFails);
        && (o2.reply == Received || o2.reply == NotificationFailed)
        && o2.after.donations ==
             t.donations + [Settled(PendingEntry(t.nextId, donorId, requestId, amount, currency, now), intentId, fetchedRate)]
  {
    var o1 := CreateIntent(t, requestId, donorId, Some(amount), Some(currency), now, true);
    IntentLeavesPending(t, requestId, donorId, amount, currency, now, intentId, fetchedRate);
    if o1.reply.IntentCreated? {
      var d := PendingEntry(t.nextId, donorId, requestId, amount, currency, now);
      var s := Settled(d, intentId, fetchedRate);
      var j := |t.donations|;
      WebhookSettlesPending(o1.after, j, PaymentEvent(SucceededEvent, intentId, o1.reply.charge.metadata), fetchedRate, later, notificationFails);
      assert o1.after.donations[j := s] == t.donations + [s];
    }
  }
}
