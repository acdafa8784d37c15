/** The administrative notification (the Notification schema). */
module NotificationModel {
  import opened Wrappers
  import opened Seqs

  datatype NoticeType = GoalAchieved | NewRequest | SystemAlert

  /** The `onModel` tag naming the kind of entity `relatedId` refers to. */
  datatype RelatedModel = OnDonationRequest | OnUser | OnDonation

  datatype Notification = Notification(
    id: nat,
    kind: NoticeType,
    message: string,
    relatedId: Option<nat>,
    onModel: Option<RelatedModel>,
    isRead: bool,
    createdAt: nat)

  /** `message` is required. */
  predicate ValidNotice(n: Notification) {
    n.message != []
  }

  /** The message the webhook writes when a request is funded. */
  function FundedMessage(patientname: string): (m: string)
    ensures |m| == 31 + |patientname| + 23
    ensures m[..31] == "Goal Achieved: The mission for " && m[31..31 + |patientname|] == patientname
  {
    "Goal Achieved: The mission for " + patientname + " has been fully funded!"
  }

  /**
   * The message the direct-donation path and the scheduler write: the webhook's
   * message followed by the goal and the total, rendered by `goalText` and
   * `totalText` (JavaScript's number-to-string, which this model leaves abstract).
   */
  function FundedMessageWithTotals(patientname: string, goalText: string, totalText: string): (m: string)
    ensures FundedMessage(patientname) <= m
    ensures |m| > |FundedMessage(patientname)| + |goalText| + |totalText|
  {
    FundedMessage(patientname) + " Target: " + goalText + ", Total Raised: " + totalText + "."
  }

  /** The `goal_achieved` notification created for a funded request; `isRead` takes its default, false. */
  function GoalNotice(id: nat, requestId: nat, message: string, now: nat): (n: Notification)
    requires message != []
    ensures n.kind == GoalAchieved && n.relatedId == Some(requestId) && n.onModel == Some(OnDonationRequest)
    ensures n.id == id && n.message == message && n.createdAt == now
    ensures !n.isRead && ValidNotice(n)
  {
    Notification(id, GoalAchieved, message, Some(requestId), Some(OnDonationRequest), false, now)
  }

  predicate IsGoalNoticeFor(n: Notification, rid: nat) {
    n.kind == GoalAchieved && n.relatedId == Some(rid)
  }

  /** `Notification.findOne({ relatedId, type: 'goal_achieved' })` finds something. */
  function HasGoalNotice(ns: seq<Notification>, rid: nat): (b: bool)
    ensures b <==> exists i :: 0 <= i < |ns| && IsGoalNoticeFor(ns[i], rid)
  {
    IndexWhere(ns, (n: Notification) => IsGoalNoticeFor(n, rid)).Some?
  }

  /** How many `goal_achieved` notifications refer to the request. */
  function GoalNoticeCount(ns: seq<Notification>, rid: nat): (c: nat)
    ensures c <= |ns|
  {
    if ns == [] then 0
    else (if IsGoalNoticeFor(ns[|ns| - 1], rid) then 1 else 0) + GoalNoticeCount(ns[..|ns| - 1], rid)
  }

  /** The count is positive exactly when the existence check succeeds. */
  lemma {:induction false} GoalNoticeCountPositive(ns: seq<Notification>, rid: nat)
    ensures GoalNoticeCount(ns, rid) > 0 <==> HasGoalNotice(ns, rid)
  {
    if ns != [] {
      var init := ns[..|ns| - 1];
      GoalNoticeCountPositive(init, rid);
      if HasGoalNotice(init, rid) {
        var i :| 0 <= i < |init| && IsGoalNoticeFor(init[i], rid);
        assert ns[i] == init[i];
      }
      if HasGoalNotice(ns, rid) && !IsGoalNoticeFor(ns[|ns| - 1], rid) {
        var i :| 0 <= i < |ns| && IsGoalNoticeFor(ns[i], rid);
        assert init[i] == ns[i];
      }
    }
  }

  lemma GoalNoticeCountAppend(ns: seq<Notification>, n: Notification, rid: nat)
    ensures GoalNoticeCount(ns + [n], rid) == GoalNoticeCount(ns, rid) + (if IsGoalNoticeFor(n, rid) then 1 else 0)
  {
    assert (ns + [n])[..|ns|] == ns;
  }
}
