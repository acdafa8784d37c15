/** The admin's notification inbox: the latest notices, mark-as-read and delete. */
module NotificationController {
  import opened Wrappers
  import opened Seqs
  import opened NotificationModel
  import opened Db

  /** How many notices the inbox shows. */
  const InboxSize: nat := 50

  /** `Notification.find({}).sort({ createdAt: -1 }).limit(50)`, the table order being the creation order. */
  function LatestNotifications(ns: seq<Notification>): seq<Notification> {
    Window(Reverse(ns), 0, InboxSize)
  }

  /** The notices were created in table order. */
  predicate CreatedInOrder(ns: seq<Notification>) {
    forall i, j :: 0 <= i < j < |ns| ==> ns[i].createdAt <= ns[j].createdAt
  }

  /**
   * The inbox holds the most recent notices, at most 50, newest first: every
   * notice in the table is shown when there are at most 50, and otherwise
   * every notice left out is no newer than every notice shown.
   */
  lemma LatestNotificationsNewest(ns: seq<Notification>)
    requires CreatedInOrder(ns)
    ensures var r := LatestNotifications(ns);
      && |r| == (if |ns| <= InboxSize then |ns| else InboxSize)
      && (forall i :: 0 <= i < |r| ==> r[i] == ns[|ns| - 1 - i])
      && (forall i, j :: 0 <= i < j < |r| ==> r[i].createdAt >= r[j].createdAt)
      && (forall i, j :: 0 <= i < |r| && 0 <= j < |ns| - |r| ==> ns[j].createdAt <= r[i].createdAt)
  {
    var r := LatestNotifications(ns);
    forall i | 0 <= i < |r| ensures r[i] == ns[|ns| - 1 - i] {
      assert r[i] == Reverse(ns)[i];
    }
  }

  datatype ReadReply = ReadNotFound | MarkedRead(notification: Notification)

  /** `markAsRead`: set `isRead` on the notice with id `id`, or 404. */
  function MarkRead(t: Tables, id: nat): Outcome<ReadReply> {
    match FindNotification(t.notifications, id)
    case None => Outcome(ReadNotFound, t)
    case Some(k) =>
      var n := t.notifications[k].(isRead := true);
      Outcome(MarkedRead(n), t.(notifications := t.notifications[k := n]))
  }

  /**
   * An unknown id answers 404 and changes nothing; otherwise the notice
   * becomes read, no other field of it and no other notice changes, and the
   * reply carries the updated notice.
   */
  lemma MarkReadEffect(t: Tables, id: nat)
    ensures var o := MarkRead(t, id);
      && (o.reply.ReadNotFound? <==> forall j :: 0 <= j < |t.notifications| ==> t.notifications[j].id != id)
      && (o.reply.ReadNotFound? ==> o.after == t)
      && (o.reply.MarkedRead? ==>
            var k := FindNotification(t.notifications, id).value;
            && o.reply.notification.isRead && o.reply.notification.id == id
            && o.reply.notification == t.notifications[k].(isRead := true)
            && |o.after.notifications| == |t.notifications| && o.after.notifications[k] == o.reply.notification
            && (forall j :: 0 <= j < |t.notifications| && j != k ==> o.after.notifications[j] == t.notifications[j])
            && o.after.requests == t.requests && o.after.donations == t.donations && o.after.nextId == t.nextId)
  {
  }

  /** Marking a notice read twice is marking it once. */
  lemma MarkReadIdempotent(t: Tables, id: nat)
    ensures MarkRead(MarkRead(t, id).after, id) == MarkRead(t, id)
  {
    var o := MarkRead(t, id);
    match FindNotification(t.notifications, id)
    case None =>
    case Some(k) =>
      var ns := o.after.notifications;
      assert forall j :: 0 <= j < |ns| ==> ns[j].id == t.notifications[j].id;
      assert FindNotification(ns, id) == Some(k);
      assert ns[k := ns[k].(isRead := true)] == ns;
  }

  lemma MarkReadKeepsValid(t: Tables, id: nat)
    requires TablesValid(t)
    ensures TablesValid(MarkRead(t, id).after)
  {
  }

  /** `markAsRead` on the store. */
  method MarkAsRead(db: Store, id: nat) returns (reply: ReadReply)
    requires db.Valid()
    modifies db
    ensures db.Valid()
    ensures reply == MarkRead(old(db.Snapshot()), id).reply
    ensures db.Snapshot() == MarkRead(old(db.Snapshot()), id).after
  {
    var found := FindNotification(db.notifications, id);
    if found.None? {
      return ReadNotFound;
    }
    var n := db.notifications[found.value].(isRead := true);
    db.UpdateNotification(found.value, n);
    reply := MarkedRead(n);
  }

  datatype DeleteNoticeReply = NoticeNotFound | NoticeDeleted

  /** `deleteNotification`: remove the notice with id `id`, or 404. */
  function DeleteNotice(t: Tables, id: nat): Outcome<DeleteNoticeReply> {
    match FindNotification(t.notifications, id)
    case None => Outcome(NoticeNotFound, t)
    case Some(k) => Outcome(NoticeDeleted, t.(notifications := RemoveAt(t.notifications, k)))
  }

  /**
   * An unknown id answers 404 and changes nothing; otherwise exactly the
   * notice with that id is gone and every other notice stays.
   */
  lemma DeleteNoticeEffect(t: Tables, id: nat)
    requires TablesValid(t)
    ensures var o := DeleteNotice(t, id);
      && (o.reply.NoticeNotFound? <==> forall j :: 0 <= j < |t.notifications| ==> t.notifications[j].id != id)
      && (o.reply.NoticeNotFound? ==> o.after == t)
      && (o.reply.NoticeDeleted? ==>
            && |o.after.notifications| == |t.notifications| - 1
            && (forall n :: n in o.after.notifications <==> n in t.notifications && n.id != id)
            && o.after.requests == t.requests && o.after.donations == t.donations && o.after.nextId == t.nextId)
  {
    var o := DeleteNotice(t, id);
    if o.reply.NoticeDeleted? {
      RemoveNoticeMembers(t.notifications, FindNotification(t.notifications, id).value, id);
    }
  }

  /** Removing the notice at position `k`, the one with id `id`, keeps exactly the notices with other ids, as ids are unique. */
  lemma RemoveNoticeMembers(ns: seq<Notification>, k: nat, id: nat)
    requires k < |ns| && ns[k].id == id
    requires forall i, j :: 0 <= i < j < |ns| ==> ns[i].id != ns[j].id
    ensures forall n :: n in RemoveAt(ns, k) <==> n in ns && n.id != id
  {
    var rest := RemoveAt(ns, k);
    forall n | n in rest ensures n in ns && n.id != id {
      var i :| 0 <= i < |rest| && rest[i] == n;
      if i < k {
        assert rest[i] == ns[i];
      } else {
        assert rest[i] == ns[i + 1];
      }
    }
    forall n | n in ns && n.id != id ensures n in rest {
      var i :| 0 <= i < |ns| && ns[i] == n;
      if i < k {
        assert rest[i] == n;
      } else {
        assert rest[i - 1] == n;
      }
    }
  }

  lemma DeleteNoticeKeepsValid(t: Tables, id: nat)
    requires TablesValid(t)
    ensures TablesValid(DeleteNotice(t, id).after)
  {
    match FindNotification(t.notifications, id)
    case None =>
    case Some(k) =>
      var rest := RemoveAt(t.notifications, k);
      assert forall i :: 0 <= i < |rest| ==> rest[i] in t.notifications;
  }

  /** `deleteNotification` on the store. */
  method DeleteNotification(db: Store, id: nat) returns (reply: DeleteNoticeReply)
    requires db.Valid()
    modifies db
    ensures db.Valid()
    ensures reply == DeleteNotice(old(db.Snapshot()), id).reply
    ensures db.Snapshot() == DeleteNotice(old(db.Snapshot()), id).after
  {
    var found := FindNotification(db.notifications, id);
    if found.None? {
      return NoticeNotFound;
    }
    db.RemoveNotification(found.value);
    reply := NoticeDeleted;
  }
}
