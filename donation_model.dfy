/**
 * The donation ledger entry (the Donation schema) and the totals the
 * controllers compute over the ledger.
 */
module DonationModel {
  import opened Wrappers
  import opened Seqs
  import opened Text

  datatype DonationStatus = Pending | Success | Failed

  /**
   * One ledger entry. `amount` is the INR value, `originalAmount` the amount in
   * the donor's `currency`, `exchangeRate` the rate applied (default 1),
   * `transactionId` unique when present, `createdAt` in milliseconds.
   */
  datatype Donation = Donation(
    id: nat,
    donorId: nat,
    requestId: nat,
    amount: real,
    originalAmount: real,
    currency: string,
    exchangeRate: real,
    transactionId: Option<string>,
    status: DonationStatus,
    paymentMethod: string,
    createdAt: nat)

  /** What the schema enforces on every stored entry: `amount` at least 0 and the currency upper-cased. */
  predicate ValidEntry(d: Donation) {
    d.amount >= 0.0 && NoLowerCase(d.currency)
  }

  /** The `paymentMethod` default. */
  const DefaultPaymentMethod: string := "Direct"

  /** No two entries carry the same transaction id (the sparse unique index). */
  predicate TransactionIdsUnique(ds: seq<Donation>) {
    forall i, j :: 0 <= i < j < |ds| && ds[i].transactionId.Some? ==> ds[i].transactionId != ds[j].transactionId
  }

  /** Some entry other than the one at `skip` already carries transaction id `t`. */
  predicate TransactionIdTaken(ds: seq<Donation>, t: string, skip: int) {
    exists i :: 0 <= i < |ds| && i != skip && ds[i].transactionId == Some(t)
  }

  lemma UniqueAfterAppend(ds: seq<Donation>, d: Donation)
    requires TransactionIdsUnique(ds)
    requires d.transactionId.Some? ==> !TransactionIdTaken(ds, d.transactionId.value, -1)
    ensures TransactionIdsUnique(ds + [d])
  {
    var ds' := ds + [d];
    forall i, j | 0 <= i < j < |ds'| && ds'[i].transactionId.Some?
      ensures ds'[i].transactionId != ds'[j].transactionId
    {
      if j == |ds| && d.transactionId.Some? {
        assert ds[i].transactionId != Some(d.transactionId.value);
      }
    }
  }

  lemma UniqueAfterUpdate(ds: seq<Donation>, k: nat, d: Donation)
    requires k < |ds| && TransactionIdsUnique(ds)
    requires d.transactionId.Some? ==> !TransactionIdTaken(ds, d.transactionId.value, k)
    ensures TransactionIdsUnique(ds[k := d])
  {
    var ds' := ds[k := d];
    forall i, j | 0 <= i < j < |ds'| && ds'[i].transactionId.Some?
      ensures ds'[i].transactionId != ds'[j].transactionId
    {
      if i == k {
        assert ds[j].transactionId != Some(d.transactionId.value);
      } else if j == k && d.transactionId.Some? {
        assert ds[i].transactionId != Some(d.transactionId.value);
      }
    }
  }

  /** The sum of the amounts, as `reduce((sum, d) => sum + d.amount, 0)`. */
  function Sum(ds: seq<Donation>): real {
    if ds == [] then 0.0 else ds[0].amount + Sum(ds[1..])
  }

  lemma {:induction false} SumAppend(a: seq<Donation>, b: seq<Donation>)
    ensures Sum(a + b) == Sum(a) + Sum(b)
  {
    if a == [] {
      assert a + b == b;
    } else {
      assert (a + b)[1..] == a[1..] + b;
      SumAppend(a[1..], b);
    }
  }

  /** `Donation.find({ requestId, status: "success" })`. */
  function SuccessEntries(ds: seq<Donation>, rid: nat): (r: seq<Donation>)
    ensures forall i :: 0 <= i < |r| ==> r[i] in ds && r[i].requestId == rid && r[i].status == Success
    ensures forall i :: 0 <= i < |ds| && ds[i].requestId == rid && ds[i].status == Success ==> ds[i] in r
  {
    Filter(ds, (d: Donation) => d.requestId == rid && d.status == Success)
  }

  /** `Donation.find({ requestId })`: every entry of the request, whatever its status. */
  function RequestEntries(ds: seq<Donation>, rid: nat): (r: seq<Donation>)
    ensures forall i :: 0 <= i < |r| ==> r[i] in ds && r[i].requestId == rid
    ensures forall i :: 0 <= i < |ds| && ds[i].requestId == rid ==> ds[i] in r
  {
    Filter(ds, (d: Donation) => d.requestId == rid)
  }

  /**
   * The confirmed total of a request: the INR amounts of its `success` entries.
   * (`Number(d.amount) || 0` is the amount itself, since a stored amount is a number.)
   */
  function RaisedTotal(ds: seq<Donation>, rid: nat): real {
    Sum(SuccessEntries(ds, rid))
  }

  /** What one entry contributes to a request's confirmed total. */
  function Contribution(d: Donation, rid: nat): real {
    if d.requestId == rid && d.status == Success then d.amount else 0.0
  }

  /** The confirmed total distributes over concatenation. */
  lemma RaisedAppend(a: seq<Donation>, b: seq<Donation>, rid: nat)
    ensures RaisedTotal(a + b, rid) == RaisedTotal(a, rid) + RaisedTotal(b, rid)
  {
    FilterAppend(a, b, (d: Donation) => d.requestId == rid && d.status == Success);
    SumAppend(SuccessEntries(a, rid), SuccessEntries(b, rid));
  }

  lemma RaisedSingle(d: Donation, rid: nat)
    ensures RaisedTotal([d], rid) == Contribution(d, rid)
  {
    FilterCons(d, [], (d: Donation) => d.requestId == rid && d.status == Success);
    assert [d] + [] == [d];
    SumAppend(if d.requestId == rid && d.status == Success then [d] else [], []);
    assert [d][1..] == [];
  }

  lemma RaisedCons(d: Donation, ds: seq<Donation>, rid: nat)
    ensures RaisedTotal([d] + ds, rid) == Contribution(d, rid) + RaisedTotal(ds, rid)
  {
    RaisedAppend([d], ds, rid);
    RaisedSingle(d, rid);
  }

  /** Appending an entry raises a request's total by exactly that entry's contribution. */
  lemma RaisedAfterInsert(ds: seq<Donation>, d: Donation, rid: nat)
    ensures RaisedTotal(ds + [d], rid) == RaisedTotal(ds, rid) + Contribution(d, rid)
  {
    RaisedAppend(ds, [d], rid);
    RaisedSingle(d, rid);
  }

  /** Replacing one entry changes a request's total by the difference of the two contributions. */
  lemma RaisedAfterUpdate(ds: seq<Donation>, k: nat, d: Donation, rid: nat)
    requires k < |ds|
    ensures RaisedTotal(ds[k := d], rid) == RaisedTotal(ds, rid) - Contribution(ds[k], rid) + Contribution(d, rid)
  {
    var pre, post := ds[..k], ds[k + 1..];
    assert ds == pre + [ds[k]] + post;
    assert ds[k := d] == pre + [d] + post;
    RaisedAppend(pre + [ds[k]], post, rid);
    RaisedAppend(pre + [d], post, rid);
    RaisedAfterInsert(pre, ds[k], rid);
    RaisedAfterInsert(pre, d, rid);
  }

  /** The total does not depend on the order in which entries were recorded. */
  lemma RaisedOrderIndependent(a: seq<Donation>, b: seq<Donation>, rid: nat)
    ensures RaisedTotal(a + b, rid) == RaisedTotal(b + a, rid)
  {
    RaisedAppend(a, b, rid);
    RaisedAppend(b, a, rid);
  }

  /** The sum does not depend on reading the entries newest first. */
  lemma {:induction false} SumReverse(ds: seq<Donation>)
    ensures Sum(Reverse(ds)) == Sum(ds)
  {
    if ds != [] {
      var init, last := ds[..|ds| - 1], ds[|ds| - 1];
      SumReverse(init);
      assert ([last] + Reverse(init))[1..] == Reverse(init);
      assert ds == init + [last];
      SumAppend(init, [last]);
      assert [last][1..] == [];
    }
  }

  /** Every entry's amount is at least 0. */
  predicate AmountsNonNegative(ds: seq<Donation>) {
    forall i :: 0 <= i < |ds| ==> ds[i].amount >= 0.0
  }

  lemma {:induction false} SumNonNegative(ds: seq<Donation>)
    requires AmountsNonNegative(ds)
    ensures Sum(ds) >= 0.0
  {
    if ds != [] {
      SumNonNegative(ds[1..]);
    }
  }

  /** Removing entries that are not `success` for the request leaves its total as it was. */
  lemma {:induction false} RaisedIgnoresOthers(ds: seq<Donation>, keep: Donation -> bool, rid: nat)
    requires forall i :: 0 <= i < |ds| && !keep(ds[i]) ==> Contribution(ds[i], rid) == 0.0
    ensures RaisedTotal(Filter(ds, keep), rid) == RaisedTotal(ds, rid)
  {
    if ds != [] {
      var d, rest := ds[0], ds[1..];
      assert ds == [d] + rest;
      RaisedIgnoresOthers(rest, keep, rid);
      FilterCons(d, rest, keep);
      RaisedCons(d, rest, rid);
      if keep(d) {
        RaisedCons(d, Filter(rest, keep), rid);
      } else {
        assert [] + Filter(rest, keep) == Filter(rest, keep);
      }
    }
  }

  /** In a ledger where only `success` entries carry an amount, all entries of a request sum to its confirmed total. */
  lemma {:induction false} RequestSumIsRaised(ds: seq<Donation>, rid: nat)
    requires forall i :: 0 <= i < |ds| && ds[i].status != Success ==> ds[i].amount == 0.0
    ensures Sum(RequestEntries(ds, rid)) == RaisedTotal(ds, rid)
  {
    if ds != [] {
      var d, rest := ds[0], ds[1..];
      assert ds == [d] + rest;
      RequestSumIsRaised(rest, rid);
      FilterCons(d, rest, (d: Donation) => d.requestId == rid);
      RaisedCons(d, rest, rid);
      var head := if d.requestId == rid then [d] else [];
      SumAppend(head, RequestEntries(rest, rid));
      assert Sum(head) == Contribution(d, rid) by {
        if d.requestId == rid { assert [d][1..] == []; }
      }
    }
  }
}
