/**
 * The direct-donation path: `makeDonation` converts the donor's amount,
 * inserts a `success` ledger entry, re-derives the request's confirmed total
 * and flips the request to achieved when its goal is met; and the admin's
 * per-request donation summary.
 */
module DonationController {
  import opened Wrappers
  import opened Text
  import opened Goal
  import opened Currency
  import opened DonationModel
  import opened RequestModel
  import opened NotificationModel
  import opened Db

  /** The direct-donation transaction id `TXN-<now>-<random>`. */
  function DirectTransactionId(now: nat, random: nat): string {
    "TXN-" + Decimal(now) + "-" + Decimal(random)
  }

  /**
   * The entry `makeDonation` inserts: the donor's amount (`parseFloat(amount) || 0`,
   * None standing for NaN) converted by the USD-or-identity rule, status success.
   */
  function DirectEntry(id: nat, donorId: nat, requestId: nat, amount: Option<real>, currency: Option<string>,
                       fetchedRate: Option<real>, now: nat, random: nat): (d: Donation)
    ensures d.id == id && d.donorId == donorId && d.requestId == requestId
    ensures d.status == Success && d.createdAt == now
    ensures d.originalAmount == amount.GetOr(0.0) && d.currency == DonorCurrency(currency)
    ensures d.currency == "USD" ==> d.exchangeRate == RateUsed(fetchedRate)
    ensures d.currency != "USD" ==> d.exchangeRate == 1.0 && d.amount == d.originalAmount
    ensures d.amount == d.originalAmount * d.exchangeRate
    ensures d.transactionId == Some(DirectTransactionId(now, random))
    ensures NoLowerCase(d.currency)
  {
    var original := amount.GetOr(0.0);
    var cur := DonorCurrency(currency);
    var c := Convert(cur, original, fetchedRate);
    UpperIsUpper(cur);
    Donation(id, donorId, requestId, c.amount, original, Upper(cur), c.rate,
             Some(DirectTransactionId(now, random)), Success, DefaultPaymentMethod, now)
  }

  /**
   * The reconciliation both payment paths run after a success entry lands:
   * re-derive the confirmed total of the request at position `k` and, when its
   * goal is met, mark it achieved and notify the admins. `notificationFails`
   * says whether `Notification.create` throws; the status is saved before it.
   * The reply says whether the request was marked achieved.
   */
  function Reconcile(t: Tables, k: nat, message: string, now: nat, notificationFails: bool): Outcome<bool>
    requires k < |t.requests| && message != []
  {
    var r := t.requests[k];
    if !GoalReached(r, t.donations) then Outcome(false, t)
    else
      var t1 := SetStatus(t, k, Achieved);
      if notificationFails then Outcome(true, t1)
      else Outcome(true, InsertNotification(t1, GoalNotice(t1.nextId, r.id, message, now)))
  }

  /**
   * Reconciliation marks the request achieved exactly when its goal is met,
   * touches no other request and no ledger entry, and adds at most the one
   * goal notice for that request.
   */
  lemma ReconcileEffect(t: Tables, k: nat, message: string, now: nat, notificationFails: bool)
    requires k < |t.requests| && message != []
    ensures var o := Reconcile(t, k, message, now, notificationFails);
      && (o.reply <==> GoalMet(GoalAsWritten(t.requests[k].donationamount), RaisedTotal(t.donations, t.requests[k].id)))
      && |o.after.requests| == |t.requests|
      && o.after.requests[k].status == (if o.reply then Achieved else t.requests[k].status)
      && (forall j :: 0 <= j < |t.requests| && j != k ==> o.after.requests[j] == t.requests[j])
      && o.after.donations == t.donations
      && GoalNoticeCount(o.after.notifications, t.requests[k].id) ==
           GoalNoticeCount(t.notifications, t.requests[k].id) + (if o.reply && !notificationFails then 1 else 0)
  {
    var o := Reconcile(t, k, message, now, notificationFails);
    var r := t.requests[k];
    if o.reply && !notificationFails {
      var n := GoalNotice(t.nextId, r.id, message, now);
      assert o.after.notifications == t.notifications + [n];
      GoalNoticeCountAppend(t.notifications, n, r.id);
    }
  }

  lemma ReconcileKeepsValid(t: Tables, k: nat, message: string, now: nat, notificationFails: bool)
    requires TablesValid(t) && k < |t.requests| && message != []
    ensures TablesValid(Reconcile(t, k, message, now, notificationFails).after)
  {
    var r := t.requests[k];
    if GoalReached(r, t.donations) {
      var t1 := SetStatus(t, k, Achieved);
      SetStatusKeepsValid(t, k, Achieved);
      if !notificationFails {
        InsertNotificationKeepsValid(t1, GoalNotice(t1.nextId, r.id, message, now));
      }
    }
  }

  /** The imperative reconciliation on the store, step by step as `Reconcile` describes it. */
  method CheckGoal(db: Store, k: nat, message: string, now: nat, notificationFails: bool) returns (achieved: bool)
    requires db.Valid() && k < |db.requests| && message != []
    modifies db
    ensures db.Valid()
    ensures achieved == Reconcile(old(db.Snapshot()), k, message, now, notificationFails).reply
    ensures db.Snapshot() == Reconcile(old(db.Snapshot()), k, message, now, notificationFails).after
  {
    var r := db.requests[k];
    achieved := GoalReached(r, db.donations);
    if !achieved {
      return;
    }
    db.SetRequestStatus(k, Achieved);
    if notificationFails {
      return;
    }
    db.AddNotification(GoalNotice(db.nextId, r.id, message, now));
  }

  /**
   * The notice text of the direct path and the scheduler for the request at
   * position `k`: its goal and its confirmed total, rendered by `fmt`.
   */
  function DirectMessage(t: Tables, k: nat, fmt: real -> string): (m: string)
    requires k < |t.requests|
    ensures FundedMessage(t.requests[k].patientname) <= m
  {
    var r := t.requests[k];
    FundedMessageWithTotals(r.patientname, fmt(GoalAsWritten(r.donationamount).GetOr(0.0)), fmt(RaisedTotal(t.donations, r.id)))
  }

  datatype DonateReply =
    | RequestNotFound                                         // 404
    | NotAccepting                                            // 400: the request is not approved
    | DonationRejected                                        // 500: the insert failed validation or the unique index
    | Donated(entry: Donation, requestStatus: RequestStatus)  // 201

  /**
   * `makeDonation` on the tables. `fetchedRate` is the rate service's answer,
   * `now` and `random` the clock and `Math.floor(Math.random() * 1000)`, and
   * `notificationFails` whether creating the admin notification throws (the
   * handler catches that and still answers 201).
   */
  function Donate(t: Tables, requestId: nat, donorId: nat, amount: Option<real>, currency: Option<string>,
                  fetchedRate: Option<real>, now: nat, random: nat, fmt: real -> string, notificationFails: bool): Outcome<DonateReply>
  {
    match FindRequest(t.requests, requestId)
    case None => Outcome(RequestNotFound, t)
    case Some(k) =>
      if t.requests[k].status != Approved then Outcome(NotAccepting, t)
      else
        var entry := DirectEntry(t.nextId, donorId, requestId, amount, currency, fetchedRate, now, random);
        if entry.amount < 0.0 || TransactionIdTaken(t.donations, entry.transactionId.value, -1) then
          Outcome(DonationRejected, t)
        else
          var t1 := InsertDonation(t, entry);
          var g := Reconcile(t1, k, DirectMessage(t1, k, fmt), now, notificationFails);
          Outcome(Donated(entry, if g.reply then Achieved else Approved), g.after)
  }

  /** A missing request answers 404 and an unapproved one 400, and neither changes anything. */
  lemma DonateGuards(t: Tables, requestId: nat, donorId: nat, amount: Option<real>, currency: Option<string>,
                     fetchedRate: Option<real>, now: nat, random: nat, fmt: real -> string, notificationFails: bool)
    ensures var o := Donate(t, requestId, donorId, amount, currency, fetchedRate, now, random, fmt, notificationFails);
      && (o.reply.RequestNotFound? <==> forall j :: 0 <= j < |t.requests| ==> t.requests[j].id != requestId)
      && (o.reply.NotAccepting? <==>
            exists j :: 0 <= j < |t.requests| && t.requests[j].id == requestId && t.requests[j].status != Approved &&
                        forall i :: 0 <= i < j ==> t.requests[i].id != requestId)
      && (!o.reply.Donated? ==> o.after == t)
  {
    var o := Donate(t, requestId, donorId, amount, currency, fetchedRate, now, random, fmt, notificationFails);
    match FindRequest(t.requests, requestId)
    case None =>
    case Some(k) =>
      if o.reply.NotAccepting? {
        assert t.requests[k].id == requestId && t.requests[k].status != Approved;
      }
      if exists j :: 0 <= j < |t.requests| && t.requests[j].id == requestId && t.requests[j].status != Approved &&
                     forall i :: 0 <= i < j ==> t.requests[i].id != requestId {
        var j :| 0 <= j < |t.requests| && t.requests[j].id == requestId && t.requests[j].status != Approved &&
                 forall i :: 0 <= i < j ==> t.requests[i].id != requestId;
        assert j == k;
      }
  }

  /** A donation is refused (500) exactly when its converted amount is negative or its transaction id is taken. */
  lemma DonateRejection(t: Tables, requestId: nat, donorId: nat, amount: Option<real>, currency: Option<string>,
                        fetchedRate: Option<real>, now: nat, random: nat, fmt: real -> string, notificationFails: bool)
    requires FindRequest(t.requests, requestId).Some?
    requires t.requests[FindRequest(t.requests, requestId).value].status == Approved
    ensures var o := Donate(t, requestId, donorId, amount, currency, fetchedRate, now, random, fmt, notificationFails);
      var e := DirectEntry(t.nextId, donorId, requestId, amount, currency, fetchedRate, now, random);
      o.reply.DonationRejected? <==>
        e.amount < 0.0 || exists i :: 0 <= i < |t.donations| && t.donations[i].transactionId == Some(DirectTransactionId(now, random))
  {
  }

  /**
   * An accepted donation appends its entry to the ledger and adds its converted
   * amount to the request's confirmed total; the request is marked achieved
   * exactly when that new total meets its goal, and no other request changes.
   * One goal notice for the request is added exactly when it is marked
   * achieved and creating the notice does not throw.
   */
  lemma DonateRecords(t: Tables, requestId: nat, donorId: nat, amount: Option<real>, currency: Option<string>,
                      fetchedRate: Option<real>, now: nat, random: nat, fmt: real -> string, notificationFails: bool)
    ensures var o := Donate(t, requestId, donorId, amount, currency, fetchedRate, now, random, fmt, notificationFails);
      o.reply.Donated? ==>
        var k := FindRequest(t.requests, requestId).value;
        var r := t.requests[k];
        && r.status == Approved
        && o.reply.entry == DirectEntry(t.nextId, donorId, requestId, amount, currency, fetchedRate, now, random)
        && o.after.donations == t.donations + [o.reply.entry]
        && RaisedTotal(o.after.donations, requestId) == RaisedTotal(t.donations, requestId) + o.reply.entry.amount
        && (o.reply.requestStatus == Achieved <==> GoalMet(GoalAsWritten(r.donationamount), RaisedTotal(o.after.donations, requestId)))
        && o.after.requests[k].status == o.reply.requestStatus
        && (forall j :: 0 <= j < |t.requests| && j != k ==> o.after.requests[j] == t.requests[j])
        && GoalNoticeCount(o.after.notifications, requestId) ==
             GoalNoticeCount(t.notifications, requestId) + (if o.reply.requestStatus == Achieved && !notificationFails then 1 else 0)
  {
    var o := Donate(t, requestId, donorId, amount, currency, fetchedRate, now, random, fmt, notificationFails);
    if o.reply.Donated? {
      var k := FindRequest(t.requests, requestId).value;
      var t1 := InsertDonation(t, o.reply.entry);
      ReconcileEffect(t1, k, DirectMessage(t1, k, fmt), now, notificationFails);
      RaisedAfterInsert(t.donations, o.reply.entry, requestId);
    }
  }

  lemma DonateKeepsValid(t: Tables, requestId: nat, donorId: nat, amount: Option<real>, currency: Option<string>,
                         fetchedRate: Option<real>, now: nat, random: nat, fmt: real -> string, notificationFails: bool)
    requires TablesValid(t)
    ensures TablesValid(Donate(t, requestId, donorId, amount, currency, fetchedRate, now, random, fmt, notificationFails).after)
  {
    match FindRequest(t.requests, requestId)
    case None =>
    case Some(k) =>
      var entry := DirectEntry(t.nextId, donorId, requestId, amount, currency, fetchedRate, now, random);
      if t.requests[k].status == Approved && !(entry.amount < 0.0 || TransactionIdTaken(t.donations, entry.transactionId.value, -1)) {
        AcceptedDonationKeepsValid(t, k, entry, now, fmt, notificationFails);
      }
  }

  /** Recording an accepted entry and reconciling its request keeps the tables valid. */
  lemma AcceptedDonationKeepsValid(t: Tables, k: nat, entry: Donation, now: nat, fmt: real -> string, notificationFails: bool)
    requires TablesValid(t) && k < |t.requests|
    requires entry.id == t.nextId && ValidEntry(entry) && entry.status == Success
    requires entry.transactionId.Some? && !TransactionIdTaken(t.donations, entry.transactionId.value, -1)
    ensures var t1 := InsertDonation(t, entry);
      TablesValid(Reconcile(t1, k, DirectMessage(t1, k, fmt), now, notificationFails).after)
  {
    var t1 := InsertDonation(t, entry);
    InsertDonationKeepsValid(t, entry);
    ReconcileKeepsValid(t1, k, DirectMessage(t1, k, fmt), now, notificationFails);
  }

  /** `makeDonation` on the store, step by step as `Donate` describes it. */
  method MakeDonation(db: Store, requestId: nat, donorId: nat, amount: Option<real>, currency: Option<string>,
                      fetchedRate: Option<real>, now: nat, random: nat, fmt: real -> string, notificationFails: bool)
    returns (reply: DonateReply)
    requires db.Valid()
    modifies db
    ensures db.Valid()
    ensures reply == Donate(old(db.Snapshot()), requestId, donorId, amount, currency, fetchedRate, now, random, fmt, notificationFails).reply
    ensures db.Snapshot() == Donate(old(db.Snapshot()), requestId, donorId, amount, currency, fetchedRate, now, random, fmt, notificationFails).after
  {
    ghost var t := db.Snapshot();
    var found := FindRequest(db.requests, requestId);
    if found.None? {
      assert Donate(t, requestId, donorId, amount, currency, fetchedRate, now, random, fmt, notificationFails) ==
        Outcome(RequestNotFound, t);
      return RequestNotFound;
    }
    var k := found.value;
    if db.requests[k].status != Approved {
      assert Donate(t, requestId, donorId, amount, currency, fetchedRate, now, random, fmt, notificationFails) ==
        Outcome(NotAccepting, t);
      return NotAccepting;
    }
    // The insert: schema validation (amount >= 0) and the unique transaction id.
    var entry := DirectEntry(db.nextId, donorId, requestId, amount, currency, fetchedRate, now, random);
    if entry.amount < 0.0 || TransactionIdTaken(db.donations, entry.transactionId.value, -1) {
      assert Donate(t, requestId, donorId, amount, currency, fetchedRate, now, random, fmt, notificationFails) ==
        Outcome(DonationRejected, t);
      return DonationRejected;
    }
    ghost var g := Reconcile(InsertDonation(t, entry), k, DirectMessage(InsertDonation(t, entry), k, fmt), now, notificationFails);
    assert Donate(t, requestId, donorId, amount, currency, fetchedRate, now, random, fmt, notificationFails) ==
      Outcome(Donated(entry, if g.reply then Achieved else Approved), g.after);
    db.AddDonation(entry);
    assert db.Snapshot() == InsertDonation(t, entry);
    // Goal check over the success entries, the new one included.
    var achieved := CheckGoal(db, k, DirectMessage(db.Snapshot(), k, fmt), now, notificationFails);
    if achieved {
      reply := Donated(entry, Achieved);
    } else {
      reply := Donated(entry, Approved);
    }
  }

  /** The summary of `getRequestDonations`. */
  datatype Summary = Summary(totalRaised: real, donorCount: nat)

  /**
   * The admin's per-request summary: the amounts of every entry of the request,
   * whatever its status, and the number of those entries.
   */
  function RequestDonationsSummary(ds: seq<Donation>, rid: nat): (s: Summary)
    ensures s.donorCount == |RequestEntries(ds, rid)|
    ensures AmountsNonNegative(ds) ==> s.totalRaised >= 0.0
  {
    var entries := RequestEntries(ds, rid);
    assert AmountsNonNegative(ds) ==> Sum(entries) >= 0.0 by {
      if AmountsNonNegative(ds) {
        assert AmountsNonNegative(entries);
        SumNonNegative(entries);
      }
    }
    Summary(Sum(entries), |entries|)
  }

  /**
   * On a valid ledger the admin summary's total is the confirmed total: entries
   * still pending carry amount 0. Its donor count, by contrast, counts them.
   */
  lemma SummaryTotalIsRaised(ds: seq<Donation>, next: nat, rid: nat)
    requires LedgerValid(ds, next)
    ensures RequestDonationsSummary(ds, rid).totalRaised == RaisedTotal(ds, rid)
  {
    RequestSumIsRaised(ds, rid);
  }
}
