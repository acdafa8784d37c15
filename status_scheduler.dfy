/**
 * The background jobs: the sweep that marks funded approved requests achieved
 * (creating a goal notice only when none exists yet), and the cleanup that
 * deletes pending ledger entries older than twenty minutes.
 */
module StatusScheduler {
  import opened Wrappers
  import opened Seqs
  import opened Goal
  import opened DonationModel
  import opened RequestModel
  import opened NotificationModel
  import opened Db
  import opened DonationController
  import opened PaymentController

  /** Positions of the approved requests in table order: `DonationRequest.find({ status: 'approved' })`. */
  function ApprovedPositions(rs: seq<DonationRequest>): (ks: seq<nat>)
    ensures forall i :: 0 <= i < |ks| ==> ks[i] < |rs| && rs[ks[i]].status == Approved
    ensures forall k :: 0 <= k < |rs| && rs[k].status == Approved ==> k in ks
    ensures forall i, j :: 0 <= i < j < |ks| ==> ks[i] < ks[j]
  {
    if rs == [] then []
    else
      var init := ApprovedPositions(rs[..|rs| - 1]);
      if rs[|rs| - 1].status == Approved then init + [|rs| - 1] else init
  }

  /**
   * One iteration of the sweep over the request at position `k`: the shared
   * reconciliation, with the notice left out when a `goal_achieved` notice for
   * the request already exists or when creating it throws (`notifyFails` holds
   * the ids of the requests whose `Notification.create` throws; that error is
   * caught inside the iteration).
   */
  function SweepStep(t: Tables, k: nat, now: nat, fmt: real -> string, notifyFails: set<nat>): (t': Tables)
    requires k < |t.requests|
    ensures |t'.requests| == |t.requests| && t'.donations == t.donations
    ensures t.notifications <= t'.notifications
  {
    var r := t.requests[k];
    var skipNotice := HasGoalNotice(t.notifications, r.id) || r.id in notifyFails;
    ReconcileEffect(t, k, DirectMessage(t, k, fmt), now, skipNotice);
    Reconcile(t, k, DirectMessage(t, k, fmt), now, skipNotice).after
  }

  /** The iterations over the positions `ks`, in order. */
  function Sweep(t: Tables, ks: seq<nat>, now: nat, fmt: real -> string, notifyFails: set<nat>): (t': Tables)
    requires forall i :: 0 <= i < |ks| ==> ks[i] < |t.requests|
    ensures |t'.requests| == |t.requests| && t'.donations == t.donations
    ensures t.notifications <= t'.notifications
    decreases |ks|
  {
    if ks == [] then t
    else SweepStep(Sweep(t, ks[..|ks| - 1], now, fmt, notifyFails), ks[|ks| - 1], now, fmt, notifyFails)
  }

  /**
   * How many approved requests the sweep gets through: all of them, unless an
   * error other than a notification failure is thrown at the start of the
   * iteration `abortAt`; the `try` encloses the whole loop, so that error ends it.
   */
  function SweptCount(t: Tables, abortAt: Option<nat>): (n: nat)
    ensures n <= |ApprovedPositions(t.requests)|
    ensures abortAt.None? ==> n == |ApprovedPositions(t.requests)|
  {
    var ks := ApprovedPositions(t.requests);
    if abortAt.Some? && abortAt.value < |ks| then abortAt.value else |ks|
  }

  /** `syncAchievedStatus` on the tables. */
  function SyncAchieved(t: Tables, now: nat, fmt: real -> string, notifyFails: set<nat>, abortAt: Option<nat>): Tables {
    Sweep(t, ApprovedPositions(t.requests)[..SweptCount(t, abortAt)], now, fmt, notifyFails)
  }

  /** One iteration marks the request achieved exactly when its goal is met and changes no other request. */
  lemma SweepStepRequests(t: Tables, k: nat, now: nat, fmt: real -> string, notifyFails: set<nat>)
    requires k < |t.requests|
    ensures var t' := SweepStep(t, k, now, fmt, notifyFails);
      && t'.requests[k] == (if GoalReached(t.requests[k], t.donations) then t.requests[k].(status := Achieved) else t.requests[k])
      && forall j :: 0 <= j < |t.requests| && j != k ==> t'.requests[j] == t.requests[j]
  {
  }

  /**
   * The sweep over distinct positions `ks` marks achieved exactly the requests
   * at those positions whose goal is met, and leaves every other request as it was.
   */
  lemma {:induction false} SweepRequests(t: Tables, ks: seq<nat>, now: nat, fmt: real -> string, notifyFails: set<nat>)
    requires forall i :: 0 <= i < |ks| ==> ks[i] < |t.requests|
    requires forall i, j :: 0 <= i < j < |ks| ==> ks[i] != ks[j]
    ensures forall k :: 0 <= k < |t.requests| ==>
      Sweep(t, ks, now, fmt, notifyFails).requests[k] ==
        (if k in ks && GoalReached(t.requests[k], t.donations) then t.requests[k].(status := Achieved) else t.requests[k])
  {
    if ks != [] {
      var init, last := ks[..|ks| - 1], ks[|ks| - 1];
      var t1 := Sweep(t, init, now, fmt, notifyFails);
      var t2 := Sweep(t, ks, now, fmt, notifyFails);
      assert t2 == SweepStep(t1, last, now, fmt, notifyFails);
      SweepRequests(t, init, now, fmt, notifyFails);
      SweepStepRequests(t1, last, now, fmt, notifyFails);
      LastNotInInit(ks);
      forall k | 0 <= k < |t.requests|
        ensures t2.requests[k] ==
          (if k in ks && GoalReached(t.requests[k], t.donations) then t.requests[k].(status := Achieved) else t.requests[k])
      {
        assert k in ks <==> k in init || k == last;
      }
    }
  }

  /** The sweep leaves a request at a position it does not visit as it was. */
  lemma {:induction false} SweepSkips(t: Tables, ks: seq<nat>, now: nat, fmt: real -> string, notifyFails: set<nat>, k: nat)
    requires forall i :: 0 <= i < |ks| ==> ks[i] < |t.requests|
    requires k < |t.requests| && k !in ks
    ensures Sweep(t, ks, now, fmt, notifyFails).requests[k] == t.requests[k]
    decreases |ks|
  {
    if ks != [] {
      var init := ks[..|ks| - 1];
      assert k !in init by {
        assert forall j :: 0 <= j < |init| ==> init[j] == ks[j];
      }
      SweepSkips(t, init, now, fmt, notifyFails, k);
      SweepStepRequests(Sweep(t, init, now, fmt, notifyFails), ks[|ks| - 1], now, fmt, notifyFails);
    }
  }

  /** Positions without repetitions. */
  predicate Distinct(ks: seq<nat>) {
    forall a, b :: 0 <= a < b < |ks| ==> ks[a] != ks[b]
  }

  /** In a sequence without repetitions, an element does not occur before its position. */
  lemma NotInPrefix(ks: seq<nat>, i: nat)
    requires i < |ks| && Distinct(ks)
    ensures ks[i] !in ks[..i]
  {
    forall j | 0 <= j < i ensures ks[..i][j] != ks[i] {
      assert ks[..i][j] == ks[j];
    }
  }

  /** In a sequence without repetitions, the last element does not occur before. */
  lemma LastNotInInit(ks: seq<nat>)
    requires ks != [] && forall i, j :: 0 <= i < j < |ks| ==> ks[i] != ks[j]
    ensures ks[|ks| - 1] !in ks[..|ks| - 1]
    ensures forall k :: k in ks <==> k in ks[..|ks| - 1] || k == ks[|ks| - 1]
  {
    var init := ks[..|ks| - 1];
    assert ks == init + [ks[|ks| - 1]];
    forall i | 0 <= i < |init| ensures init[i] != ks[|ks| - 1] {
      assert init[i] == ks[i];
    }
  }

  /**
   * A completed sweep marks achieved exactly the approved requests whose goal
   * is met; every other request, and every field but that status, is as it was.
   * An aborted sweep does the same for the approved requests it reached.
   */
  lemma SyncAchievedRequests(t: Tables, now: nat, fmt: real -> string, notifyFails: set<nat>, abortAt: Option<nat>)
    ensures var t' := SyncAchieved(t, now, fmt, notifyFails, abortAt);
      var swept := ApprovedPositions(t.requests)[..SweptCount(t, abortAt)];
      && |t'.requests| == |t.requests| && t'.donations == t.donations
      && forall k :: 0 <= k < |t.requests| ==>
           t'.requests[k] == (if k in swept && GoalReached(t.requests[k], t.donations)
                              then t.requests[k].(status := Achieved) else t.requests[k])
  {
    var ks := ApprovedPositions(t.requests);
    var n := SweptCount(t, abortAt);
    SweepRequests(t, ks[..n], now, fmt, notifyFails);
  }

  /** After a completed sweep, no approved request has met its goal. */
  lemma SyncAchievedComplete(t: Tables, now: nat, fmt: real -> string, notifyFails: set<nat>)
    ensures var t' := SyncAchieved(t, now, fmt, notifyFails, None);
      forall k :: 0 <= k < |t'.requests| && t'.requests[k].status == Approved ==> !GoalReached(t'.requests[k], t'.donations)
  {
    var ks := ApprovedPositions(t.requests);
    SyncAchievedRequests(t, now, fmt, notifyFails, None);
    assert ks[..|ks|] == ks;
  }

  /** Iterations over requests whose goals are not met change nothing. */
  lemma {:induction false} SweepUnfunded(t: Tables, ks: seq<nat>, now: nat, fmt: real -> string, notifyFails: set<nat>)
    requires forall i :: 0 <= i < |ks| ==> ks[i] < |t.requests| && !GoalReached(t.requests[ks[i]], t.donations)
    ensures Sweep(t, ks, now, fmt, notifyFails) == t
    decreases |ks|
  {
    if ks != [] {
      var init := ks[..|ks| - 1];
      assert forall i :: 0 <= i < |init| ==> init[i] == ks[i];
      SweepUnfunded(t, init, now, fmt, notifyFails);
      StepUnfunded(t, ks[|ks| - 1], now, fmt, notifyFails);
    }
  }

  /** An iteration on a request whose goal is not met changes nothing. */
  lemma StepUnfunded(t: Tables, k: nat, now: nat, fmt: real -> string, notifyFails: set<nat>)
    requires k < |t.requests| && !GoalReached(t.requests[k], t.donations)
    ensures SweepStep(t, k, now, fmt, notifyFails) == t
  {
  }

  /**
   * A second sweep right after a completed one changes nothing, however it
   * ends: the requests it marked achieved are no longer approved, and the
   * approved ones left have not met their goals.
   */
  lemma SecondSweepIsNoOp(t: Tables, now: nat, fmt: real -> string, notifyFails: set<nat>,
                          now2: nat, notifyFails2: set<nat>, abortAt2: Option<nat>)
    ensures var t' := SyncAchieved(t, now, fmt, notifyFails, None);
      SyncAchieved(t', now2, fmt, notifyFails2, abortAt2) == t'
  {
    var t' := SyncAchieved(t, now, fmt, notifyFails, None);
    SyncAchievedComplete(t, now, fmt, notifyFails);
    var ks := ApprovedPositions(t'.requests)[..SweptCount(t', abortAt2)];
    assert forall i :: 0 <= i < |ks| ==> ks[i] < |t'.requests| && t'.requests[ks[i]].status == Approved;
    SweepUnfunded(t', ks, now2, fmt, notifyFails2);
  }

  /** One iteration adds a goal notice for request `rid` only when there was none. */
  lemma SweepStepNotices(t: Tables, k: nat, now: nat, fmt: real -> string, notifyFails: set<nat>, rid: nat)
    requires k < |t.requests|
    ensures var t' := SweepStep(t, k, now, fmt, notifyFails);
      && (GoalNoticeCount(t'.notifications, rid) == GoalNoticeCount(t.notifications, rid) ||
          GoalNoticeCount(t'.notifications, rid) == 1)
  {
    if rid == t.requests[k].id {
      StepNoticesOwn(t, k, now, fmt, notifyFails);
    } else {
      StepNoticesOther(t, k, now, fmt, notifyFails, rid);
    }
  }

  /** The iteration's own request gets a goal notice only when it had none, and then has exactly one. */
  lemma StepNoticesOwn(t: Tables, k: nat, now: nat, fmt: real -> string, notifyFails: set<nat>)
    requires k < |t.requests|
    ensures var rid := t.requests[k].id;
      var c := GoalNoticeCount(t.notifications, rid);
      var c' := GoalNoticeCount(SweepStep(t, k, now, fmt, notifyFails).notifications, rid);
      c' == c || (c == 0 && c' == 1)
  {
    var r := t.requests[k];
    var skipNotice := HasGoalNotice(t.notifications, r.id) || r.id in notifyFails;
    ReconcileEffect(t, k, DirectMessage(t, k, fmt), now, skipNotice);
    GoalNoticeCountPositive(t.notifications, r.id);
  }

  /** The iteration leaves the goal notices of every other request as they were. */
  lemma StepNoticesOther(t: Tables, k: nat, now: nat, fmt: real -> string, notifyFails: set<nat>, rid: nat)
    requires k < |t.requests| && rid != t.requests[k].id
    ensures GoalNoticeCount(SweepStep(t, k, now, fmt, notifyFails).notifications, rid) == GoalNoticeCount(t.notifications, rid)
  {
    var r := t.requests[k];
    var ns' := SweepStep(t, k, now, fmt, notifyFails).notifications;
    if ns' != t.notifications {
      var n := GoalNotice(t.nextId, r.id, DirectMessage(t, k, fmt), now);
      assert ns' == t.notifications + [n];
      GoalNoticeCountAppend(t.notifications, n, rid);
    }
  }

  /** The sweep never makes a request's goal notices more than one when there was at most one. */
  lemma {:induction false} SweepAtMostOneNotice(t: Tables, ks: seq<nat>, now: nat, fmt: real -> string,
                                                notifyFails: set<nat>, rid: nat)
    requires forall i :: 0 <= i < |ks| ==> ks[i] < |t.requests|
    requires GoalNoticeCount(t.notifications, rid) <= 1
    ensures GoalNoticeCount(Sweep(t, ks, now, fmt, notifyFails).notifications, rid) <= 1
  {
    if ks != [] {
      var t1 := Sweep(t, ks[..|ks| - 1], now, fmt, notifyFails);
      SweepAtMostOneNotice(t, ks[..|ks| - 1], now, fmt, notifyFails, rid);
      SweepStepNotices(t1, ks[|ks| - 1], now, fmt, notifyFails, rid);
    }
  }

  /** Through the scheduler alone, a request gets at most one goal notice. */
  lemma SyncAchievedAtMostOneNotice(t: Tables, now: nat, fmt: real -> string, notifyFails: set<nat>,
                                    abortAt: Option<nat>, rid: nat)
    requires GoalNoticeCount(t.notifications, rid) <= 1
    ensures GoalNoticeCount(SyncAchieved(t, now, fmt, notifyFails, abortAt).notifications, rid) <= 1
  {
    var ks := ApprovedPositions(t.requests);
    SweepAtMostOneNotice(t, ks[..SweptCount(t, abortAt)], now, fmt, notifyFails, rid);
  }

  /** Goal notices, once there, stay: notices are only ever appended. */
  lemma HasGoalNoticeGrows(ns: seq<Notification>, ns': seq<Notification>, rid: nat)
    requires ns <= ns' && HasGoalNotice(ns, rid)
    ensures HasGoalNotice(ns', rid)
  {
    var i :| 0 <= i < |ns| && IsGoalNoticeFor(ns[i], rid);
    assert ns'[i] == ns[i];
  }

  /** After one iteration on a funded request whose notice creation does not fail, a goal notice for it exists. */
  lemma SweepStepNotifies(t: Tables, k: nat, now: nat, fmt: real -> string, notifyFails: set<nat>)
    requires k < |t.requests| && GoalReached(t.requests[k], t.donations) && t.requests[k].id !in notifyFails
    ensures HasGoalNotice(SweepStep(t, k, now, fmt, notifyFails).notifications, t.requests[k].id)
  {
    var r := t.requests[k];
    if !HasGoalNotice(t.notifications, r.id) {
      var m := DirectMessage(t, k, fmt);
      var n := GoalNotice(SetStatus(t, k, Achieved).nextId, r.id, m, now);
      var ns' := SweepStep(t, k, now, fmt, notifyFails).notifications;
      assert ns' == t.notifications + [n];
      assert IsGoalNoticeFor(ns'[|t.notifications|], r.id);
    } else {
      HasGoalNoticeGrows(t.notifications, SweepStep(t, k, now, fmt, notifyFails).notifications, r.id);
    }
  }

  /**
   * After the sweep over `ks` up to position `i`, where `ks[i]` is not visited
   * before, the request at `ks[i]` has a goal notice when its goal is met and
   * its notice creation does not fail: the earlier iterations left that request as it was.
   */
  lemma SweepLastNotifies(t: Tables, ks: seq<nat>, i: nat, now: nat, fmt: real -> string, notifyFails: set<nat>)
    requires forall j :: 0 <= j < |ks| ==> ks[j] < |t.requests|
    requires i < |ks| && ks[i] !in ks[..i]
    requires GoalReached(t.requests[ks[i]], t.donations) && t.requests[ks[i]].id !in notifyFails
    ensures HasGoalNotice(Sweep(t, ks[..i + 1], now, fmt, notifyFails).notifications, t.requests[ks[i]].id)
  {
    SweepExtend(t, ks, i, now, fmt, notifyFails);
    SweepSkips(t, ks[..i], now, fmt, notifyFails, ks[i]);
    LaterStepNotifies(t, Sweep(t, ks[..i], now, fmt, notifyFails), ks[i], now, fmt, notifyFails);
  }

  /** The iteration at `k` on tables that agree with `t` on that request and on the ledger notifies as on `t`. */
  lemma LaterStepNotifies(t: Tables, t1: Tables, k: nat, now: nat, fmt: real -> string, notifyFails: set<nat>)
    requires k < |t.requests| && k < |t1.requests| && t1.requests[k] == t.requests[k] && t1.donations == t.donations
    requires GoalReached(t.requests[k], t.donations) && t.requests[k].id !in notifyFails
    ensures HasGoalNotice(SweepStep(t1, k, now, fmt, notifyFails).notifications, t.requests[k].id)
  {
    SweepStepNotifies(t1, k, now, fmt, notifyFails);
  }

  /**
   * After the sweep over distinct positions `ks`, the request at position
   * `ks[i]` has a goal notice when its goal is met and its notice creation
   * does not fail.
   */
  lemma {:induction false} SweepNotifies(t: Tables, ks: seq<nat>, now: nat, fmt: real -> string, notifyFails: set<nat>, i: nat)
    requires forall j :: 0 <= j < |ks| ==> ks[j] < |t.requests|
    requires Distinct(ks)
    requires i < |ks| && GoalReached(t.requests[ks[i]], t.donations) && t.requests[ks[i]].id !in notifyFails
    ensures HasGoalNotice(Sweep(t, ks, now, fmt, notifyFails).notifications, t.requests[ks[i]].id)
    decreases |ks|, 1
  {
    if i == |ks| - 1 {
      SweepNotifiesLast(t, ks, now, fmt, notifyFails);
    } else {
      SweepNotifiesEarlier(t, ks, now, fmt, notifyFails, i);
    }
  }

  /** A request visited before the last iteration gets its notice there, and the last iteration keeps it. */
  lemma {:induction false} SweepNotifiesEarlier(t: Tables, ks: seq<nat>, now: nat, fmt: real -> string, notifyFails: set<nat>, i: nat)
    requires forall j :: 0 <= j < |ks| ==> ks[j] < |t.requests|
    requires Distinct(ks)
    requires i < |ks| - 1 && GoalReached(t.requests[ks[i]], t.donations) && t.requests[ks[i]].id !in notifyFails
    ensures HasGoalNotice(Sweep(t, ks, now, fmt, notifyFails).notifications, t.requests[ks[i]].id)
    decreases |ks|, 0
  {
    var init := ks[..|ks| - 1];
    DistinctInit(ks, i);
    SweepNotifies(t, init, now, fmt, notifyFails, i);
    SweepLastStepKeepsNotice(t, ks, now, fmt, notifyFails, t.requests[ks[i]].id);
  }

  /** The request visited last gets its goal notice, when its goal is met and its notice creation does not fail. */
  lemma SweepNotifiesLast(t: Tables, ks: seq<nat>, now: nat, fmt: real -> string, notifyFails: set<nat>)
    requires ks != [] && forall j :: 0 <= j < |ks| ==> ks[j] < |t.requests|
    requires Distinct(ks)
    requires GoalReached(t.requests[ks[|ks| - 1]], t.donations) && t.requests[ks[|ks| - 1]].id !in notifyFails
    ensures HasGoalNotice(Sweep(t, ks, now, fmt, notifyFails).notifications, t.requests[ks[|ks| - 1]].id)
  {
    NotInPrefix(ks, |ks| - 1);
    SweepLastNotifies(t, ks, |ks| - 1, now, fmt, notifyFails);
    assert ks[..|ks|] == ks;
  }

  /** Dropping the last position keeps the positions distinct and the earlier ones where they were. */
  lemma DistinctInit(ks: seq<nat>, i: nat)
    requires i < |ks| - 1 && Distinct(ks)
    ensures ks[..|ks| - 1][i] == ks[i] && Distinct(ks[..|ks| - 1])
  {
  }

  /** The last iteration of the sweep keeps every goal notice the iterations before it left. */
  lemma SweepLastStepKeepsNotice(t: Tables, ks: seq<nat>, now: nat, fmt: real -> string, notifyFails: set<nat>, rid: nat)
    requires ks != [] && forall j :: 0 <= j < |ks| ==> ks[j] < |t.requests|
    requires HasGoalNotice(Sweep(t, ks[..|ks| - 1], now, fmt, notifyFails).notifications, rid)
    ensures HasGoalNotice(Sweep(t, ks, now, fmt, notifyFails).notifications, rid)
  {
    HasGoalNoticeGrows(Sweep(t, ks[..|ks| - 1], now, fmt, notifyFails).notifications,
                       Sweep(t, ks, now, fmt, notifyFails).notifications, rid);
  }

  /** After a completed sweep, every approved funded request whose notice creation does not fail has a goal notice. */
  lemma SyncAchievedNotifies(t: Tables, now: nat, fmt: real -> string, notifyFails: set<nat>)
    ensures var t' := SyncAchieved(t, now, fmt, notifyFails, None);
      forall k :: 0 <= k < |t.requests| && t.requests[k].status == Approved && GoalReached(t.requests[k], t.donations) &&
                  t.requests[k].id !in notifyFails ==>
        HasGoalNotice(t'.notifications, t.requests[k].id)
  {
    var ks := ApprovedPositions(t.requests);
    assert ks[..|ks|] == ks;
    forall k | 0 <= k < |t.requests| && t.requests[k].status == Approved && GoalReached(t.requests[k], t.donations) &&
               t.requests[k].id !in notifyFails
      ensures HasGoalNotice(SyncAchieved(t, now, fmt, notifyFails, None).notifications, t.requests[k].id)
    {
      assert k in ks;
      var i :| 0 <= i < |ks| && ks[i] == k;
      SweepNotifies(t, ks, now, fmt, notifyFails, i);
    }
  }

  lemma {:induction false} SweepKeepsValid(t: Tables, ks: seq<nat>, now: nat, fmt: real -> string, notifyFails: set<nat>)
    requires TablesValid(t) && forall i :: 0 <= i < |ks| ==> ks[i] < |t.requests|
    ensures TablesValid(Sweep(t, ks, now, fmt, notifyFails))
  {
    if ks != [] {
      var t1 := Sweep(t, ks[..|ks| - 1], now, fmt, notifyFails);
      var k := ks[|ks| - 1];
      SweepKeepsValid(t, ks[..|ks| - 1], now, fmt, notifyFails);
      var skipNotice := HasGoalNotice(t1.notifications, t1.requests[k].id) || t1.requests[k].id in notifyFails;
      ReconcileKeepsValid(t1, k, DirectMessage(t1, k, fmt), now, skipNotice);
    }
  }

  /** `syncAchievedStatus` on the store, the loop over the approved requests. */
  method SyncAchievedStatus(db: Store, now: nat, fmt: real -> string, notifyFails: set<nat>, abortAt: Option<nat>)
    requires db.Valid()
    modifies db
    ensures db.Valid()
    ensures db.Snapshot() == SyncAchieved(old(db.Snapshot()), now, fmt, notifyFails, abortAt)
  {
    ghost var t := db.Snapshot();
    var approved := ApprovedPositions(db.requests);
    // The iteration at which a store error would be thrown, if any.
    var failsAt := if abortAt.Some? then abortAt.value else |approved|;
    var i := 0;
    while i < |approved|
      invariant 0 <= i <= |approved| && i <= failsAt
      invariant db.Valid() && |db.requests| == |t.requests|
      invariant db.Snapshot() == Sweep(t, approved[..i], now, fmt, notifyFails)
    {
      if i == failsAt {
        assert SweptCount(t, abortAt) == i;
        return;
      }
      SweepExtend(t, approved, i, now, fmt, notifyFails);
      SweepOne(db, approved[i], now, fmt, notifyFails);
      i := i + 1;
    }
    assert SweptCount(t, abortAt) == i;
    assert approved[..i] == approved;
  }

  /** Sweeping one position further is one more iteration. */
  lemma SweepExtend(t: Tables, ks: seq<nat>, i: nat, now: nat, fmt: real -> string, notifyFails: set<nat>)
    requires i < |ks| && forall j :: 0 <= j < |ks| ==> ks[j] < |t.requests|
    ensures Sweep(t, ks[..i + 1], now, fmt, notifyFails) ==
      SweepStep(Sweep(t, ks[..i], now, fmt, notifyFails), ks[i], now, fmt, notifyFails)
  {
    assert ks[..i + 1][..i] == ks[..i];
  }

  /**
   * The body of one iteration: sum the confirmed total and compare it with the
   * goal, save the status, look for an existing goal notice, and create one if
   * there is none (a failure to create it is caught).
   */
  method SweepOne(db: Store, k: nat, now: nat, fmt: real -> string, notifyFails: set<nat>)
    requires db.Valid() && k < |db.requests|
    modifies db
    ensures db.Valid()
    ensures db.Snapshot() == SweepStep(old(db.Snapshot()), k, now, fmt, notifyFails)
  {
    ghost var t := db.Snapshot();
    var r := db.requests[k];
    var message := DirectMessage(db.Snapshot(), k, fmt);
    ghost var skipNotice := HasGoalNotice(t.notifications, r.id) || r.id in notifyFails;
    if !GoalReached(r, db.donations) {
      assert Reconcile(t, k, message, now, skipNotice) == Outcome(false, t);
      return;
    }
    db.SetRequestStatus(k, Achieved);
    assert db.Snapshot() == SetStatus(t, k, Achieved);
    var existing := HasGoalNotice(db.notifications, r.id);
    if !existing && r.id !in notifyFails {
      db.AddNotification(GoalNotice(db.nextId, r.id, message, now));
    }
  }

  /** Pending entries live twenty minutes: `20 * 60 * 1000` milliseconds. */
  const PendingLifetime: nat := 1200000

  /** An entry the cleanup deletes: still pending and created before `now - PendingLifetime`. */
  predicate Expired(d: Donation, now: nat) {
    d.status == DonationStatus.Pending && d.createdAt < now - PendingLifetime
  }

  /**
   * `cleanupPendingDonations` on the tables: `Donation.deleteMany` of the
   * expired entries. `storeFails` says whether the delete throws; the job
   * catches that, and nothing is deleted.
   */
  function Cleanup(t: Tables, now: nat, storeFails: bool): Tables {
    if storeFails then t else t.(donations := Filter(t.donations, (d: Donation) => !Expired(d, now)))
  }

  /**
   * The cleanup deletes exactly the expired entries: what remains is every
   * entry that is settled, failed or younger than twenty minutes, and nothing
   * else; no other table changes.
   */
  lemma CleanupRemovesExactly(t: Tables, now: nat)
    ensures var t' := Cleanup(t, now, false);
      && (forall d :: d in t'.donations <==> d in t.donations && !Expired(d, now))
      && t'.requests == t.requests && t'.notifications == t.notifications && t'.nextId == t.nextId
  {
    var t' := Cleanup(t, now, false);
    forall d | d in t.donations && !Expired(d, now) ensures d in t'.donations {
      var i :| 0 <= i < |t.donations| && t.donations[i] == d;
    }
    forall d | d in t'.donations ensures d in t.donations && !Expired(d, now) {
      var i :| 0 <= i < |t'.donations| && t'.donations[i] == d;
    }
  }

  /** A failed cleanup changes nothing. */
  lemma CleanupFailureIsNoOp(t: Tables, now: nat)
    ensures Cleanup(t, now, true) == t
  {
  }

  /** The cleanup leaves every request's confirmed total as it was: expired entries are pending. */
  lemma CleanupKeepsTotals(t: Tables, now: nat, storeFails: bool, rid: nat)
    ensures RaisedTotal(Cleanup(t, now, storeFails).donations, rid) == RaisedTotal(t.donations, rid)
  {
    if !storeFails {
      RaisedIgnoresOthers(t.donations, (d: Donation) => !Expired(d, now), rid);
    }
  }

  /** Running the cleanup twice at the same time is running it once. */
  lemma CleanupIdempotent(t: Tables, now: nat, storeFails: bool)
    ensures Cleanup(Cleanup(t, now, storeFails), now, storeFails) == Cleanup(t, now, storeFails)
  {
    FilterIdempotent(t.donations, (d: Donation) => !Expired(d, now));
  }

  lemma CleanupKeepsValid(t: Tables, now: nat, storeFails: bool)
    requires TablesValid(t)
    ensures TablesValid(Cleanup(t, now, storeFails))
  {
    LedgerFilter(t.donations, (d: Donation) => !Expired(d, now), t.nextId);
  }

  /**
   * A payment confirmed after the cleanup deleted its pending entry finds no
   * entry: the webhook answers 404 and changes nothing.
   */
  lemma LateWebhookNotFound(t: Tables, j: nat, now: nat, event: PaymentEvent, fetchedRate: Option<real>, at: nat,
                            notificationFails: bool)
    requires TablesValid(t) && j < |t.donations| && Expired(t.donations[j], now)
    requires event.kind == SucceededEvent && event.metadata.donationId == t.donations[j].id
    ensures var t' := Cleanup(t, now, false);
      Webhook(t', true, event, fetchedRate, at, notificationFails) == Outcome(DonationNotFound, t')
  {
    var t' := Cleanup(t, now, false);
    CleanupRemovesExactly(t, now);
    forall i | 0 <= i < |t'.donations| ensures t'.donations[i].id != event.metadata.donationId {
      var d := t'.donations[i];
      assert d in t'.donations;
      var i0 :| 0 <= i0 < |t.donations| && t.donations[i0] == d;
      assert i0 != j;
    }
  }

  /** `cleanupPendingDonations` on the store. */
  method CleanupPendingDonations(db: Store, now: nat, storeFails: bool)
    requires db.Valid()
    modifies db
    ensures db.Valid()
    ensures db.Snapshot() == Cleanup(old(db.Snapshot()), now, storeFails)
  {
    if storeFails {
      return;
    }
    db.KeepDonations((d: Donation) => !Expired(d, now));
  }
}
