/**
 * The in-memory database the controllers work on: the request, ledger and
 * notification collections, in insertion order, and the id source that
 * stands in for generated document ids.
 */
module Db {
  import opened Wrappers
  import opened Seqs
  import opened Goal
  import opened DonationModel
  import opened RequestModel
  import opened NotificationModel

  /** `DonationRequest.findById(id)`. */
  function FindRequest(rs: seq<DonationRequest>, id: nat): (k: Option<nat>)
    ensures k.Some? ==> k.value < |rs| && rs[k.value].id == id
    ensures k.Some? ==> forall j :: 0 <= j < k.value ==> rs[j].id != id
    ensures k.None? ==> forall j :: 0 <= j < |rs| ==> rs[j].id != id
  {
    IndexWhere(rs, (r: DonationRequest) => r.id == id)
  }

  /** `Donation.findById(id)`. */
  function FindDonation(ds: seq<Donation>, id: nat): (k: Option<nat>)
    ensures k.Some? ==> k.value < |ds| && ds[k.value].id == id
    ensures k.None? ==> forall j :: 0 <= j < |ds| ==> ds[j].id != id
  {
    IndexWhere(ds, (d: Donation) => d.id == id)
  }

  /** `Notification.findById(id)`. */
  function FindNotification(ns: seq<Notification>, id: nat): (k: Option<nat>)
    ensures k.Some? ==> k.value < |ns| && ns[k.value].id == id
    ensures k.None? ==> forall j :: 0 <= j < |ns| ==> ns[j].id != id
  {
    IndexWhere(ns, (n: Notification) => n.id == id)
  }

  /** The goal rule applied to a request and the current ledger. */
  predicate GoalReached(r: DonationRequest, ds: seq<Donation>) {
    GoalMet(GoalAsWritten(r.donationamount), RaisedTotal(ds, r.id))
  }

  /**
   * A request whose goal is written "Rs. 5,000" counts as funded once half a
   * rupee is confirmed: the label's dot becomes the decimal point.
   */
  lemma LabelledGoalReachedEarly(r: DonationRequest, ds: seq<Donation>)
    requires r.donationamount == Some("Rs. 5,000") && RaisedTotal(ds, r.id) >= 0.5
    ensures GoalReached(r, ds)
  {
    LabelledGoalAsWritten();
  }

  predicate RequestsValid(rs: seq<DonationRequest>, next: nat) {
    && (forall i :: 0 <= i < |rs| ==> rs[i].id < next && ValidRequest(rs[i]))
    && (forall i, j :: 0 <= i < j < |rs| ==> rs[i].id != rs[j].id)
  }

  /**
   * The ledger invariant: schema-valid entries with distinct ids and distinct
   * transaction ids, and no amount on an entry that has not settled (a pending
   * entry is created with amount 0 and only settlement sets its amount).
   */
  predicate LedgerValid(ds: seq<Donation>, next: nat) {
    && (forall i :: 0 <= i < |ds| ==> ds[i].id < next && ValidEntry(ds[i]))
    && (forall i, j :: 0 <= i < j < |ds| ==> ds[i].id != ds[j].id)
    && (forall i :: 0 <= i < |ds| && ds[i].status != Success ==> ds[i].amount == 0.0)
    && TransactionIdsUnique(ds)
  }

  predicate NoticesValid(ns: seq<Notification>, next: nat) {
    && (forall i :: 0 <= i < |ns| ==> ns[i].id < next && ValidNotice(ns[i]))
    && (forall i, j :: 0 <= i < j < |ns| ==> ns[i].id != ns[j].id)
  }

  /** The three collections and the id source, as one value. */
  datatype Tables = Tables(requests: seq<DonationRequest>, donations: seq<Donation>,
                           notifications: seq<Notification>, nextId: nat)

  predicate TablesValid(t: Tables) {
    RequestsValid(t.requests, t.nextId) && LedgerValid(t.donations, t.nextId) && NoticesValid(t.notifications, t.nextId)
  }

  /** What a handler answers, and the tables it leaves behind. */
  datatype Outcome<R> = Outcome(reply: R, after: Tables)

  /** `DonationRequest.create` on the tables: `r` takes the next id. */
  function InsertRequest(t: Tables, r: DonationRequest): (t': Tables)
    ensures t'.requests == t.requests + [r] && t'.nextId == t.nextId + 1
    ensures t'.donations == t.donations && t'.notifications == t.notifications
  {
    t.(requests := t.requests + [r], nextId := t.nextId + 1)
  }

  /** `Donation.create` on the tables: `d` takes the next id. */
  function InsertDonation(t: Tables, d: Donation): (t': Tables)
    ensures t'.donations == t.donations + [d] && t'.nextId == t.nextId + 1
    ensures t'.requests == t.requests && t'.notifications == t.notifications
  {
    t.(donations := t.donations + [d], nextId := t.nextId + 1)
  }

  /** `Notification.create` on the tables: `n` takes the next id. */
  function InsertNotification(t: Tables, n: Notification): (t': Tables)
    ensures t'.notifications == t.notifications + [n] && t'.nextId == t.nextId + 1
    ensures t'.requests == t.requests && t'.donations == t.donations
  {
    t.(notifications := t.notifications + [n], nextId := t.nextId + 1)
  }

  /** `donation.save()` of the entry at position `j`, changed to `d`. */
  function ReplaceDonation(t: Tables, j: nat, d: Donation): (t': Tables)
    requires j < |t.donations|
    ensures t'.donations == t.donations[j := d]
    ensures t'.requests == t.requests && t'.notifications == t.notifications && t'.nextId == t.nextId
  {
    t.(donations := t.donations[j := d])
  }

  /** `request.status = s; save()` on the request at position `k`. */
  function SetStatus(t: Tables, k: nat, s: RequestStatus): (t': Tables)
    requires k < |t.requests|
    ensures |t'.requests| == |t.requests| && t'.requests[k].status == s
    ensures forall j :: 0 <= j < |t.requests| && j != k ==> t'.requests[j] == t.requests[j]
    ensures t'.donations == t.donations && t'.notifications == t.notifications && t'.nextId == t.nextId
  {
    t.(requests := t.requests[k := t.requests[k].(status := s)])
  }

  lemma InsertRequestKeepsValid(t: Tables, r: DonationRequest)
    requires TablesValid(t) && r.id == t.nextId && ValidRequest(r)
    ensures TablesValid(InsertRequest(t, r))
  {
    RequestsAppend(t.requests, r, t.nextId);
    LedgerGrow(t.donations, t.nextId, t.nextId + 1);
    NoticesGrow(t.notifications, t.nextId, t.nextId + 1);
  }

  lemma InsertDonationKeepsValid(t: Tables, d: Donation)
    requires TablesValid(t) && d.id == t.nextId && ValidEntry(d)
    requires d.status != Success ==> d.amount == 0.0
    requires d.transactionId.Some? ==> !TransactionIdTaken(t.donations, d.transactionId.value, -1)
    ensures TablesValid(InsertDonation(t, d))
  {
    LedgerAppend(t.donations, d, t.nextId);
    RequestsGrow(t.requests, t.nextId, t.nextId + 1);
    NoticesGrow(t.notifications, t.nextId, t.nextId + 1);
  }

  lemma InsertNotificationKeepsValid(t: Tables, n: Notification)
    requires TablesValid(t) && n.id == t.nextId && ValidNotice(n)
    ensures TablesValid(InsertNotification(t, n))
  {
    NoticesAppend(t.notifications, n, t.nextId);
    RequestsGrow(t.requests, t.nextId, t.nextId + 1);
    LedgerGrow(t.donations, t.nextId, t.nextId + 1);
  }

  lemma ReplaceDonationKeepsValid(t: Tables, j: nat, d: Donation)
    requires TablesValid(t) && j < |t.donations| && d.id == t.donations[j].id && ValidEntry(d)
    requires d.status != Success ==> d.amount == 0.0
    requires d.transactionId.Some? ==> !TransactionIdTaken(t.donations, d.transactionId.value, j)
    ensures TablesValid(ReplaceDonation(t, j, d))
  {
    UniqueAfterUpdate(t.donations, j, d);
  }

  lemma SetStatusKeepsValid(t: Tables, k: nat, s: RequestStatus)
    requires TablesValid(t) && k < |t.requests|
    ensures TablesValid(SetStatus(t, k, s))
  {
    StatusChangeKeepsValid(t.requests[k], s);
  }

  class Store {
    var requests: seq<DonationRequest>
    var donations: seq<Donation>
    var notifications: seq<Notification>
    var nextId: nat

    function Snapshot(): Tables
      reads this
    {
      Tables(requests, donations, notifications, nextId)
    }

    ghost predicate Valid()
      reads this
    {
      RequestsValid(requests, nextId) && LedgerValid(donations, nextId) && NoticesValid(notifications, nextId)
    }

    constructor ()
      ensures Valid()
      ensures requests == [] && donations == [] && notifications == []
    {
      requests, donations, notifications := [], [], [];
      nextId := 0;
    }

    /** `DonationRequest.create`: `r` takes the next id. */
    method AddRequest(r: DonationRequest)
      requires Valid() && r.id == nextId && ValidRequest(r)
      modifies this
      ensures Valid() && nextId == old(nextId) + 1
      ensures requests == old(requests) + [r]
      ensures donations == old(donations) && notifications == old(notifications)
    {
      RequestsAppend(requests, r, nextId);
      requests := requests + [r];
      nextId := nextId + 1;
    }

    /** `donationRequest.status = s; save()` on the request at position `k`. */
    method SetRequestStatus(k: nat, s: RequestStatus)
      requires Valid() && k < |requests|
      modifies this
      ensures Valid() && nextId == old(nextId)
      ensures requests == old(requests)[k := old(requests)[k].(status := s)]
      ensures donations == old(donations) && notifications == old(notifications)
    {
      StatusChangeKeepsValid(requests[k], s);
      requests := requests[k := requests[k].(status := s)];
    }

    /** `DonationRequest.findByIdAndDelete` on the request at position `k`. */
    method RemoveRequest(k: nat)
      requires Valid() && k < |requests|
      modifies this
      ensures Valid() && nextId == old(nextId)
      ensures requests == RemoveAt(old(requests), k)
      ensures donations == old(donations) && notifications == old(notifications)
    {
      requests := RemoveAt(requests, k);
    }

    /** `Donation.create`: `d` takes the next id; the insert passed validation and the unique index. */
    method AddDonation(d: Donation)
      requires Valid() && d.id == nextId && ValidEntry(d)
      requires d.status != Success ==> d.amount == 0.0
      requires d.transactionId.Some? ==> !TransactionIdTaken(donations, d.transactionId.value, -1)
      modifies this
      ensures Valid() && nextId == old(nextId) + 1
      ensures donations == old(donations) + [d]
      ensures requests == old(requests) && notifications == old(notifications)
    {
      LedgerAppend(donations, d, nextId);
      donations := donations + [d];
      nextId := nextId + 1;
      NoticesGrow(notifications, nextId - 1, nextId);
    }

    /** `donation.save()` of the entry at position `k`, updated to `d` under the same id. */
    method UpdateDonation(k: nat, d: Donation)
      requires Valid() && k < |donations| && d.id == donations[k].id && ValidEntry(d)
      requires d.status != Success ==> d.amount == 0.0
      requires d.transactionId.Some? ==> !TransactionIdTaken(donations, d.transactionId.value, k)
      modifies this
      ensures Valid() && nextId == old(nextId)
      ensures donations == old(donations)[k := d]
      ensures requests == old(requests) && notifications == old(notifications)
    {
      UniqueAfterUpdate(donations, k, d);
      donations := donations[k := d];
    }

    /** `Donation.deleteMany`: keep exactly the entries satisfying `keep`. */
    method KeepDonations(keep: Donation -> bool)
      requires Valid()
      modifies this
      ensures Valid() && nextId == old(nextId)
      ensures donations == Filter(old(donations), keep)
      ensures requests == old(requests) && notifications == old(notifications)
    {
      var kept := Filter(donations, keep);
      LedgerFilter(donations, keep, nextId);
      donations := kept;
    }

    /** `Notification.create`: `n` takes the next id. */
    method AddNotification(n: Notification)
      requires Valid() && n.id == nextId && ValidNotice(n)
      modifies this
      ensures Valid() && nextId == old(nextId) + 1
      ensures notifications == old(notifications) + [n]
      ensures requests == old(requests) && donations == old(donations)
    {
      NoticesAppend(notifications, n, nextId);
      notifications := notifications + [n];
      nextId := nextId + 1;
    }

    /** `findByIdAndUpdate` of the notification at position `k` to `n` under the same id. */
    method UpdateNotification(k: nat, n: Notification)
      requires Valid() && k < |notifications| && n.id == notifications[k].id && ValidNotice(n)
      modifies this
      ensures Valid() && nextId == old(nextId)
      ensures notifications == old(notifications)[k := n]
      ensures requests == old(requests) && donations == old(donations)
    {
      notifications := notifications[k := n];
    }

    /** `Notification.deleteMany` / `findByIdAndDelete`: keep exactly the notifications satisfying `keep`. */
    method KeepNotifications(keep: Notification -> bool)
      requires Valid()
      modifies this
      ensures Valid() && nextId == old(nextId)
      ensures notifications == Filter(old(notifications), keep)
      ensures requests == old(requests) && donations == old(donations)
    {
      NoticesFilter(notifications, keep, nextId);
      notifications := Filter(notifications, keep);
    }

    /** `findByIdAndDelete` of the notification at position `k`. */
    method RemoveNotification(k: nat)
      requires Valid() && k < |notifications|
      modifies this
      ensures Valid() && nextId == old(nextId)
      ensures notifications == RemoveAt(old(notifications), k)
      ensures requests == old(requests) && donations == old(donations)
    {
      notifications := RemoveAt(notifications, k);
    }
  }


  lemma RequestsAppend(rs: seq<DonationRequest>, r: DonationRequest, next: nat)
    requires RequestsValid(rs, next) && r.id == next && ValidRequest(r)
    ensures RequestsValid(rs + [r], next + 1)
  {
  }

  lemma LedgerAppend(ds: seq<Donation>, d: Donation, next: nat)
    requires LedgerValid(ds, next) && d.id == next && ValidEntry(d)
    requires d.status != Success ==> d.amount == 0.0
    requires d.transactionId.Some? ==> !TransactionIdTaken(ds, d.transactionId.value, -1)
    ensures LedgerValid(ds + [d], next + 1)
  {
    UniqueAfterAppend(ds, d);
  }

  lemma NoticesAppend(ns: seq<Notification>, n: Notification, next: nat)
    requires NoticesValid(ns, next) && n.id == next && ValidNotice(n)
    ensures NoticesValid(ns + [n], next + 1)
  {
  }

  lemma LedgerFilter(ds: seq<Donation>, keep: Donation -> bool, next: nat)
    requires LedgerValid(ds, next)
    ensures LedgerValid(Filter(ds, keep), next)
  {
    var f := Filter(ds, keep);
    forall i | 0 <= i < |f| ensures f[i].id < next && ValidEntry(f[i]) && (f[i].status != Success ==> f[i].amount == 0.0) {
      assert f[i] in ds;
    }
    var distinct := (a: Donation, b: Donation) => a.id != b.id;
    var unique := (a: Donation, b: Donation) => a.transactionId.Some? ==> a.transactionId != b.transactionId;
    FilterPairwise(ds, keep, distinct);
    FilterPairwise(ds, keep, unique);
  }

  lemma NoticesFilter(ns: seq<Notification>, keep: Notification -> bool, next: nat)
    requires NoticesValid(ns, next)
    ensures NoticesValid(Filter(ns, keep), next)
  {
    var f := Filter(ns, keep);
    forall i | 0 <= i < |f| ensures f[i].id < next && ValidNotice(f[i]) {
      assert f[i] in ns;
    }
    FilterPairwise(ns, keep, (a: Notification, b: Notification) => a.id != b.id);
  }

  /** A freshly inserted entry is found by its id, at the end of the ledger. */
  lemma FindAfterInsert(ds: seq<Donation>, d: Donation, next: nat)
    requires LedgerValid(ds, next) && d.id == next
    ensures FindDonation(ds + [d], d.id) == Some(|ds|)
  {
    var f := FindDonation(ds + [d], d.id);
    assert (ds + [d])[|ds|].id == d.id;
    assert forall i :: 0 <= i < |ds| ==> (ds + [d])[i].id == ds[i].id < next;
  }

  lemma RequestsGrow(rs: seq<DonationRequest>, next: nat, next': nat)
    requires RequestsValid(rs, next) && next <= next'
    ensures RequestsValid(rs, next')
  {
  }

  lemma LedgerGrow(ds: seq<Donation>, next: nat, next': nat)
    requires LedgerValid(ds, next) && next <= next'
    ensures LedgerValid(ds, next')
  {
  }

  lemma NoticesGrow(ns: seq<Notification>, next: nat, next': nat)
    requires NoticesValid(ns, next) && next <= next'
    ensures NoticesValid(ns, next')
  {
  }
}
