/**
 * Request administration: the upload helpers, a receiver's submission, the
 * admin's status update, paged listing and cascading delete, the receiver's
 * own view of a request with its confirmed total, and the public views,
 * which show approved requests only.
 */
module DonationRequestController {
  import opened Wrappers
  import opened Seqs
  import opened Text
  import opened DonationModel
  import opened RequestModel
  import opened NotificationModel
  import opened Db
  import DonationController

  /** The static route uploaded files are served from. */
  const UploadRoute: string := "/uploads/donation-requests/"

  /** JavaScript truthiness of an optional text field: present and not empty. */
  predicate Present(x: Option<string>) {
    x.Some? && x.value != []
  }

  /** `x || ""`. */
  function OrEmpty(x: Option<string>): (s: string)
    ensures Present(x) ==> s == x.value
    ensures !Present(x) ==> s == []
  {
    if Present(x) then x.value else ""
  }

  /** `getFileUrl`: no URL for an empty or absent file name, otherwise the file under the upload route. */
  function GetFileUrl(filename: Option<string>): (url: Option<string>)
    ensures url.None? <==> !Present(filename)
    ensures url.Some? ==> UploadRoute <= url.value && url.value[|UploadRoute|..] == filename.value
  {
    if !Present(filename) then None else Some(UploadRoute + filename.value)
  }

  /** Different files get different URLs. */
  lemma FileUrlInjective(a: Option<string>, b: Option<string>)
    requires Present(a) && Present(b) && GetFileUrl(a) == GetFileUrl(b)
    ensures a == b
  {
    assert GetFileUrl(a).value[|UploadRoute|..] == a.value;
  }

  /**
   * `path.extname` of a file name without directories: from the last dot to
   * the end, or nothing when there is no dot, when the only dot leads the name
   * (".profile"), or for "..".
   */
  function ExtName(name: string): (ext: string)
    ensures ext != [] ==> |ext| <= |name| && ext[0] == '.' && name[|name| - |ext|..] == ext
    ensures ext != [] ==> forall i :: 1 <= i < |ext| ==> ext[i] != '.'
  {
    match LastIndexOf(name, '.')
    case None => ""
    case Some(p) => if p == 0 || name == ".." then "" else name[p..]
  }

  /** A name with a stem that does not start with a dot has the extension after its last dot. */
  lemma ExtNameOf(stem: string, ext: string)
    requires stem != [] && stem[0] != '.' && forall i :: 0 <= i < |ext| ==> ext[i] != '.'
    ensures ExtName(stem + "." + ext) == "." + ext
  {
    var name := stem + "." + ext;
    assert name[|stem|] == '.';
    assert forall j :: |stem| < j < |name| ==> name[j] == ext[j - |stem| - 1];
    assert name[|stem|..] == "." + ext;
    assert name != ".." by { assert name[0] == stem[0]; }
  }

  /** `/jpeg|jpg|png|pdf/.test(s)`: one of the four patterns occurs anywhere in `s`. */
  function MatchesAllowed(s: string): (b: bool)
    ensures b <==> Occurs(s, "jpeg") || Occurs(s, "jpg") || Occurs(s, "png") || Occurs(s, "pdf")
  {
    Contains(s, "jpeg") || Contains(s, "jpg") || Contains(s, "png") || Contains(s, "pdf")
  }

  /** `fileFilter`: accept iff both the lower-cased extension and the MIME type match. */
  function FileFilter(originalname: string, mimetype: string): (accept: bool)
    ensures accept <==> MatchesAllowed(Lower(ExtName(originalname))) && MatchesAllowed(mimetype)
  {
    MatchesAllowed(Lower(ExtName(originalname))) && MatchesAllowed(mimetype)
  }

  /** The patterns are not anchored: an extension that merely contains one is accepted. */
  lemma FileFilterUnanchored()
    ensures FileFilter("scan.pdfx", "application/pdf")
  {
    ExtensionPdfxMatches();
    MimePdfMatches();
  }

  /** The lower-cased extension ".pdfx" contains "pdf". */
  lemma ExtensionPdfxMatches()
    ensures MatchesAllowed(Lower(ExtName("scan.pdfx")))
  {
    ExtNameOf("scan", "pdfx");
    assert "scan" + "." + "pdfx" == "scan.pdfx";
    var ext := ".pdfx";
    LowerKeepsLowerCase(ext);
    OccursInside(".", "pdf", "x");
    assert "." + "pdf" + "x" == ext;
    assert OccursAt(ext, "pdf", 1);
  }

  /** The MIME type "application/pdf" contains "pdf". */
  lemma MimePdfMatches()
    ensures MatchesAllowed("application/pdf")
  {
    OccursInside("application/", "pdf", "");
    assert "application/" + "pdf" + "" == "application/pdf";
    assert OccursAt("application/pdf", "pdf", 12);
  }

  /** A file whose extension has no `p` is refused, whatever its MIME type. */
  lemma FileFilterRefusesExe(mimetype: string)
    ensures !FileFilter("scan.exe", mimetype)
  {
    ExtensionExe();
    NoPatternInExe();
  }

  /** The lower-cased extension of "scan.exe" is ".exe". */
  lemma ExtensionExe()
    ensures Lower(ExtName("scan.exe")) == ".exe"
  {
    ExtNameOf("scan", "exe");
    assert "scan" + "." + "exe" == "scan.exe";
    LowerKeepsLowerCase(".exe");
  }

  /** None of the four patterns occurs in ".exe", which has no `p`. */
  lemma NoPatternInExe()
    ensures !MatchesAllowed(".exe")
  {
    var ext := ".exe";
    assert forall i :: 0 <= i < |ext| ==> ext[i] != 'p';
    MissingCharNoOccurrence(ext, "jpeg", 1);
    MissingCharNoOccurrence(ext, "jpg", 1);
    MissingCharNoOccurrence(ext, "png", 0);
    MissingCharNoOccurrence(ext, "pdf", 0);
  }

  /** The text fields of a submission (multipart form fields arrive as text). */
  datatype SubmitForm = SubmitForm(
    patientname: Option<string>,
    age: Option<string>,
    gender: Option<string>,
    medicalproblem: Option<string>,
    number: Option<string>,
    donationamount: Option<string>,
    overview: Option<string>)

  /** The stored names of the uploaded files, when uploaded. */
  datatype Uploads = Uploads(medicalreport: Option<string>, identificationproof: Option<string>, otherproof: Option<string>)

  datatype SubmitReply =
    | MissingFields                        // 400
    | MissingFiles                         // 400
    | NotReceiver                          // 403
    | SubmitFailed                         // 500: casting or validation failed
    | Submitted(request: DonationRequest)  // 201

  /**
   * The document `DonationRequest.create` builds, or None when casting fails:
   * an age `parseInt` cannot read, or a gender outside the enum. Trimmed fields
   * are trimmed, absent optional fields are "", and the status is pending.
   */
  function NewRequest(id: nat, userId: nat, form: SubmitForm, files: Uploads, now: nat): (r: Option<DonationRequest>)
    requires form.age.Some? && form.gender.Some? && form.patientname.Some? && form.number.Some?
    ensures r.Some? <==> ParseInt(form.age.value).Some? && ParseGender(form.gender.value).Some?
    ensures r.Some? ==>
      && r.value.id == id && r.value.userId == userId && r.value.status == RequestStatus.Pending && r.value.createdAt == now
      && r.value.patientname == Trim(form.patientname.value)
      && Some(r.value.age) == ParseInt(form.age.value) && Some(r.value.gender) == ParseGender(form.gender.value)
      && r.value.medicalproblem == Trim(OrEmpty(form.medicalproblem))
      && r.value.number == form.number.value
      && r.value.donationamount == Some(OrEmpty(form.donationamount))
      && r.value.overview == Trim(OrEmpty(form.overview))
      && r.value.medicalreport == files.medicalreport.GetOr("")
      && r.value.identificationproof == files.identificationproof.GetOr("")
      && r.value.otherproof == files.otherproof.GetOr("")
  {
    match ParseInt(form.age.value)
    case None => None
    case Some(age) =>
      match ParseGender(form.gender.value)
      case None => None
      case Some(gender) =>
        Some(DonationRequest(id, userId, Trim(form.patientname.value), age, gender,
                             Trim(OrEmpty(form.medicalproblem)), files.medicalreport.GetOr(""),
                             files.identificationproof.GetOr(""), form.number.value,
                             Some(OrEmpty(form.donationamount)), files.otherproof.GetOr(""),
                             Trim(OrEmpty(form.overview)), RequestStatus.Pending, now))
  }

  /** The presence checks of the first 400 answer. */
  predicate FieldsPresent(form: SubmitForm) {
    Present(form.patientname) && Present(form.age) && Present(form.gender) && Present(form.number)
  }

  /** `submitDonationRequest` on the tables, for a caller with id `userId` and role `role`. */
  function Submit(t: Tables, userId: nat, role: string, form: SubmitForm, files: Uploads, now: nat): Outcome<SubmitReply> {
    if !FieldsPresent(form) then Outcome(MissingFields, t)
    else if files.medicalreport.None? || files.identificationproof.None? then Outcome(MissingFiles, t)
    else if role != "RECEIVER" then Outcome(NotReceiver, t)
    else match NewRequest(t.nextId, userId, form, files, now)
      case None => Outcome(SubmitFailed, t)
      case Some(r) => if ValidRequest(r) then Outcome(Submitted(r), InsertRequest(t, r)) else Outcome(SubmitFailed, t)
  }

  /**
   * The checks come in order: missing fields, then missing files, then the
   * role. Each answers exactly when the earlier ones pass and its own fails,
   * and only a successful submission changes the tables.
   */
  lemma SubmitGuards(t: Tables, userId: nat, role: string, form: SubmitForm, files: Uploads, now: nat)
    ensures var o := Submit(t, userId, role, form, files, now);
      && (o.reply.MissingFields? <==> !FieldsPresent(form))
      && (o.reply.MissingFiles? <==> FieldsPresent(form) && (files.medicalreport.None? || files.identificationproof.None?))
      && (o.reply.NotReceiver? <==>
            FieldsPresent(form) && files.medicalreport.Some? && files.identificationproof.Some? && role != "RECEIVER")
      && (!o.reply.Submitted? ==> o.after == t)
  {
  }

  /**
   * Past the guards, a submission is stored exactly when the age is a number
   * from 1 to 100, the gender is in the enum, the phone number is ten digits,
   * the trimmed patient name is not blank and both required files have names.
   */
  lemma SubmitValidation(t: Tables, userId: nat, form: SubmitForm, files: Uploads, now: nat)
    requires FieldsPresent(form) && files.medicalreport.Some? && files.identificationproof.Some?
    ensures Submit(t, userId, "RECEIVER", form, files, now).reply.Submitted? <==>
      && ParseInt(form.age.value).Some? && 1 <= ParseInt(form.age.value).value <= 100
      && ParseGender(form.gender.value).Some?
      && TenDigits(form.number.value)
      && (exists i :: 0 <= i < |form.patientname.value| && !IsSpace(form.patientname.value[i]))
      && files.medicalreport.value != [] && files.identificationproof.value != []
  {
  }

  /**
   * A stored submission is appended as a pending request of the caller, with
   * the fields as given (trimmed where the schema trims, "" where absent); the
   * ledger and the notifications do not change.
   */
  lemma SubmitCreates(t: Tables, userId: nat, role: string, form: SubmitForm, files: Uploads, now: nat)
    ensures var o := Submit(t, userId, role, form, files, now);
      o.reply.Submitted? ==>
        && o.after.requests == t.requests + [o.reply.request]
        && o.after.donations == t.donations && o.after.notifications == t.notifications
        && o.reply.request.id == t.nextId && o.reply.request.userId == userId
        && o.reply.request.status == RequestStatus.Pending && ValidRequest(o.reply.request)
        && o.reply.request.patientname == Trim(form.patientname.value)
        && o.reply.request.donationamount == Some(OrEmpty(form.donationamount))
        && o.reply.request.otherproof == files.otherproof.GetOr("")
  {
  }

  lemma SubmitKeepsValid(t: Tables, userId: nat, role: string, form: SubmitForm, files: Uploads, now: nat)
    requires TablesValid(t)
    ensures TablesValid(Submit(t, userId, role, form, files, now).after)
  {
    var o := Submit(t, userId, role, form, files, now);
    if o.reply.Submitted? {
      InsertRequestKeepsValid(t, o.reply.request);
    }
  }

  /** `submitDonationRequest` on the store. */
  method SubmitDonationRequest(db: Store, userId: nat, role: string, form: SubmitForm, files: Uploads, now: nat)
    returns (reply: SubmitReply)
    requires db.Valid()
    modifies db
    ensures db.Valid()
    ensures reply == Submit(old(db.Snapshot()), userId, role, form, files, now).reply
    ensures db.Snapshot() == Submit(old(db.Snapshot()), userId, role, form, files, now).after
  {
    SubmitGuards(db.Snapshot(), userId, role, form, files, now);
    if !FieldsPresent(form) {
      return MissingFields;
    }
    if files.medicalreport.None? || files.identificationproof.None? {
      return MissingFiles;
    }
    if role != "RECEIVER" {
      return NotReceiver;
    }
    var candidate := NewRequest(db.nextId, userId, form, files, now);
    if candidate.None? || !ValidRequest(candidate.value) {
      return SubmitFailed;
    }
    db.AddRequest(candidate.value);
    reply := Submitted(candidate.value);
  }

  datatype UpdateReply = InvalidStatus | UpdateNotFound | StatusUpdated(request: DonationRequest)

  /** `updateRequestStatus`: the whitelist first, then the lookup, then the update. */
  function UpdateStatus(t: Tables, id: nat, statusName: string): Outcome<UpdateReply> {
    match ParseStatus(statusName)
    case None => Outcome(InvalidStatus, t)
    case Some(s) =>
      match FindRequest(t.requests, id)
      case None => Outcome(UpdateNotFound, t)
      case Some(k) => Outcome(StatusUpdated(t.requests[k].(status := s)), SetStatus(t, k, s))
  }

  /**
   * A name outside the four statuses is refused before the lookup, and an
   * unknown id answers 404; neither changes anything. Otherwise the request
   * takes the named status, whatever its current one, with no other change.
   */
  lemma UpdateStatusEffect(t: Tables, id: nat, statusName: string)
    ensures var o := UpdateStatus(t, id, statusName);
      && (o.reply.InvalidStatus? <==> forall s: RequestStatus :: StatusName(s) != statusName)
      && (o.reply.UpdateNotFound? <==>
            ParseStatus(statusName).Some? && forall j :: 0 <= j < |t.requests| ==> t.requests[j].id != id)
      && (!o.reply.StatusUpdated? ==> o.after == t)
      && (o.reply.StatusUpdated? ==>
            var k := FindRequest(t.requests, id).value;
            && StatusName(o.reply.request.status) == statusName
            && o.reply.request == t.requests[k].(status := o.reply.request.status)
            && o.after.requests == t.requests[k := o.reply.request]
            && o.after.donations == t.donations && o.after.notifications == t.notifications)
  {
    if ParseStatus(statusName).Some? && FindRequest(t.requests, id).Some? {
      var k := FindRequest(t.requests, id).value;
      var o := UpdateStatus(t, id, statusName);
      assert o.after.requests == t.requests[k := o.reply.request];
    }
  }

  /** There is no transition guard: any existing request can be set to any status. */
  lemma AnyStatusFromAny(t: Tables, k: nat, s: RequestStatus)
    requires k < |t.requests| && RequestsValid(t.requests, t.nextId)
    ensures UpdateStatus(t, t.requests[k].id, StatusName(s)).reply == StatusUpdated(t.requests[k].(status := s))
  {
    ParseStatusName(s);
    var id := t.requests[k].id;
    assert FindRequest(t.requests, id) == Some(k);
  }

  lemma UpdateStatusKeepsValid(t: Tables, id: nat, statusName: string)
    requires TablesValid(t)
    ensures TablesValid(UpdateStatus(t, id, statusName).after)
  {
    match ParseStatus(statusName)
    case None =>
    case Some(s) =>
      match FindRequest(t.requests, id)
      case None =>
      case Some(k) => SetStatusKeepsValid(t, k, s);
  }

  /** `updateRequestStatus` on the store. */
  method UpdateRequestStatus(db: Store, id: nat, statusName: string) returns (reply: UpdateReply)
    requires db.Valid()
    modifies db
    ensures db.Valid()
    ensures reply == UpdateStatus(old(db.Snapshot()), id, statusName).reply
    ensures db.Snapshot() == UpdateStatus(old(db.Snapshot()), id, statusName).after
  {
    var status := ParseStatus(statusName);
    if status.None? {
      return InvalidStatus;
    }
    var found := FindRequest(db.requests, id);
    if found.None? {
      return UpdateNotFound;
    }
    db.SetRequestStatus(found.value, status.value);
    reply := StatusUpdated(db.requests[found.value]);
  }

  /** `skip = (page - 1) * limit`. */
  function Skip(page: int, limit: int): int {
    (page - 1) * limit
  }

  /**
   * `Math.ceil(total / limit)`; None for the non-finite results of a zero
   * limit (Infinity, or NaN when there is nothing to list).
   */
  function TotalPages(total: nat, limit: int): (p: Option<int>)
    ensures p.None? <==> limit == 0
    ensures limit > 0 ==> p.value >= 0 && (p.value - 1) * limit < total <= p.value * limit
  {
    if limit == 0 then None
    else if limit > 0 then Some((total + limit - 1) / limit)
    else Some(0 - total / (0 - limit))
  }

  /**
   * With a positive limit the pages cover the list exactly: there are no pages
   * for an empty list, every page up to the last starts inside the list, and
   * the page after the last starts past its end.
   */
  lemma PagesCover(total: nat, limit: int, page: int)
    requires limit > 0
    ensures var p := TotalPages(total, limit).value;
      && (p == 0 <==> total == 0)
      && (1 <= page <= p ==> 0 <= Skip(page, limit) < total)
      && Skip(p + 1, limit) >= total
  {
    var p := TotalPages(total, limit).value;
    if 1 <= page <= p {
      assert (page - 1) * limit <= (p - 1) * limit by {
        assert (p - page) * limit >= 0;
      }
    }
  }

  /** The admin list as the route answers it. */
  datatype ListReply = ListFailed | Listed(items: seq<DonationRequest>, total: nat, totalPages: Option<int>)

  /** The requests a status query matches: all of them when the query has no (or an empty) status. */
  function Matching(rs: seq<DonationRequest>, status: Option<string>): (r: seq<DonationRequest>)
    ensures forall x :: x in r <==> x in rs && (!Present(status) || StatusName(x.status) == status.value)
  {
    Filter(rs, (x: DonationRequest) => !Present(status) || StatusName(x.status) == status.value)
  }

  /**
   * `getAllDonationRequests`: the matching requests newest first (the table
   * order is the creation order), the page `page` of `limit` entries (a limit
   * of 0 means no limit, a negative one its absolute value), the count of all
   * matches and the page count. A negative skip makes the query fail (500).
   */
  function AdminList(rs: seq<DonationRequest>, status: Option<string>, page: int, limit: int): ListReply {
    var all := Reverse(Matching(rs, status));
    var skip := Skip(page, limit);
    if skip < 0 then ListFailed
    else Listed(Window(all, skip, if limit < 0 then 0 - limit else limit), |all|, TotalPages(|all|, limit))
  }

  /**
   * A listed page holds at most `limit` requests, all matching the query, in
   * newest-first order starting at the skip; the total counts every match.
   */
  lemma AdminListPage(rs: seq<DonationRequest>, status: Option<string>, page: int, limit: int)
    ensures var l := AdminList(rs, status, page, limit);
      && (l.ListFailed? <==> Skip(page, limit) < 0)
      && (l.Listed? ==>
            && l.total == |Matching(rs, status)|
            && (limit > 0 ==> |l.items| <= limit)
            && (forall i :: 0 <= i < |l.items| ==>
                  l.items[i] == Reverse(Matching(rs, status))[Skip(page, limit) + i])
            && (forall x :: x in l.items ==> x in rs && (!Present(status) || StatusName(x.status) == status.value)))
  {
    var l := AdminList(rs, status, page, limit);
    if l.Listed? {
      var all := Reverse(Matching(rs, status));
      ReverseSameElements(Matching(rs, status));
      forall x | x in l.items ensures x in all {
        var i :| 0 <= i < |l.items| && l.items[i] == x;
      }
    }
  }

  datatype DeleteReply = DeleteNotFound | DeleteForbidden | Deleted

  /** The admin role name. */
  const AdminRole: string := "ADMIN"

  /**
   * `deleteDonationRequest` for the caller `callerId` with role `callerRole`:
   * 404, then 403 unless the caller owns the request or is an admin, then the
   * request's notifications and the request itself are deleted.
   */
  function DeleteRequest(t: Tables, id: nat, callerId: nat, callerRole: string): Outcome<DeleteReply> {
    match FindRequest(t.requests, id)
    case None => Outcome(DeleteNotFound, t)
    case Some(k) =>
      if t.requests[k].userId != callerId && callerRole != AdminRole then Outcome(DeleteForbidden, t)
      else
        var notices := Filter(t.notifications, (n: Notification) => n.relatedId != Some(id));
        Outcome(Deleted, t.(notifications := notices, requests := RemoveAt(t.requests, k)))
  }

  /** Unknown ids answer 404, and callers who neither own the request nor are admins 403; neither changes anything. */
  lemma DeleteGuards(t: Tables, id: nat, callerId: nat, callerRole: string)
    ensures var o := DeleteRequest(t, id, callerId, callerRole);
      && (o.reply.DeleteNotFound? <==> forall j :: 0 <= j < |t.requests| ==> t.requests[j].id != id)
      && (o.reply.DeleteForbidden? <==>
            FindRequest(t.requests, id).Some? && t.requests[FindRequest(t.requests, id).value].userId != callerId &&
            callerRole != AdminRole)
      && (!o.reply.Deleted? ==> o.after == t)
  {
  }

  /**
   * A delete removes the request and every notification related to it, keeps
   * every other request and notification, and leaves the ledger untouched,
   * so the request's entries remain.
   */
  lemma DeleteCascade(t: Tables, id: nat, callerId: nat, callerRole: string)
    requires TablesValid(t)
    ensures var o := DeleteRequest(t, id, callerId, callerRole);
      o.reply.Deleted? ==>
        && (forall r :: r in o.after.requests <==> r in t.requests && r.id != id)
        && (forall n :: n in o.after.notifications <==> n in t.notifications && n.relatedId != Some(id))
        && o.after.donations == t.donations && o.after.nextId == t.nextId
  {
    var o := DeleteRequest(t, id, callerId, callerRole);
    if o.reply.Deleted? {
      var k := FindRequest(t.requests, id).value;
      var rest := o.after.requests;
      assert rest == RemoveAt(t.requests, k);
      forall r | r in rest ensures r in t.requests && r.id != id {
        var i :| 0 <= i < |rest| && rest[i] == r;
        if i < k {
          assert rest[i] == t.requests[i];
        } else {
          assert rest[i] == t.requests[i + 1];
        }
      }
      forall r | r in t.requests && r.id != id ensures r in rest {
        var i :| 0 <= i < |t.requests| && t.requests[i] == r;
        if i < k {
          assert rest[i] == r;
        } else {
          assert i != k;
          assert rest[i - 1] == r;
        }
      }
      forall n | n in t.notifications && n.relatedId != Some(id) ensures n in o.after.notifications {
        var i :| 0 <= i < |t.notifications| && t.notifications[i] == n;
      }
    }
  }

  lemma DeleteKeepsValid(t: Tables, id: nat, callerId: nat, callerRole: string)
    requires TablesValid(t)
    ensures TablesValid(DeleteRequest(t, id, callerId, callerRole).after)
  {
    NoticesFilter(t.notifications, (n: Notification) => n.relatedId != Some(id), t.nextId);
  }

  /** `deleteDonationRequest` on the store: the notifications first, then the request. */
  method DeleteDonationRequest(db: Store, id: nat, callerId: nat, callerRole: string) returns (reply: DeleteReply)
    requires db.Valid()
    modifies db
    ensures db.Valid()
    ensures reply == DeleteRequest(old(db.Snapshot()), id, callerId, callerRole).reply
    ensures db.Snapshot() == DeleteRequest(old(db.Snapshot()), id, callerId, callerRole).after
  {
    var found := FindRequest(db.requests, id);
    if found.None? {
      return DeleteNotFound;
    }
    var k := found.value;
    if db.requests[k].userId != callerId && callerRole != AdminRole {
      return DeleteForbidden;
    }
    db.KeepNotifications((n: Notification) => n.relatedId != Some(id));
    db.RemoveRequest(k);
    reply := Deleted;
  }

  /** What the receiver sees of one of their requests. */
  datatype Details = Details(request: DonationRequest, donations: seq<Donation>, totalRaised: real, donorCount: nat)

  /**
   * `getReceiverRequestDetails`: the caller's own request with id `id`, its
   * `success` entries newest first, their total and their number; None (404)
   * when the caller owns no request with that id.
   */
  function ReceiverRequestDetails(t: Tables, id: nat, userId: nat): Option<Details> {
    match IndexWhere(t.requests, (r: DonationRequest) => r.id == id && r.userId == userId)
    case None => None
    case Some(k) =>
      var entries := Reverse(SuccessEntries(t.donations, id));
      Some(Details(t.requests[k], entries, Sum(entries), |entries|))
  }

  /**
   * The receiver's view answers 404 exactly when the caller owns no request
   * with that id; otherwise its total is the request's confirmed total and its
   * count the number of `success` entries, each of which belongs to the request.
   */
  lemma ReceiverDetailsTotals(t: Tables, id: nat, userId: nat)
    ensures var d := ReceiverRequestDetails(t, id, userId);
      && (d.None? <==> forall j :: 0 <= j < |t.requests| ==> !(t.requests[j].id == id && t.requests[j].userId == userId))
      && (d.Some? ==>
            && d.value.request.id == id && d.value.request.userId == userId
            && d.value.totalRaised == RaisedTotal(t.donations, id)
            && d.value.donorCount == |SuccessEntries(t.donations, id)|
            && forall i :: 0 <= i < |d.value.donations| ==>
                 d.value.donations[i].requestId == id && d.value.donations[i].status == Success)
  {
    SumReverse(SuccessEntries(t.donations, id));
  }

  /** On a valid ledger the receiver sees the same total as the admin's summary. */
  lemma ReceiverAgreesWithAdmin(t: Tables, id: nat, userId: nat)
    requires TablesValid(t) && ReceiverRequestDetails(t, id, userId).Some?
    ensures ReceiverRequestDetails(t, id, userId).value.totalRaised == DonationController.RequestDonationsSummary(t.donations, id).totalRaised
  {
    ReceiverDetailsTotals(t, id, userId);
    DonationController.SummaryTotalIsRaised(t.donations, t.nextId, id);
  }

  /** `getAcceptedDonationRequests`: the approved requests, newest first. */
  function AcceptedRequests(rs: seq<DonationRequest>): seq<DonationRequest> {
    Reverse(Filter(rs, (r: DonationRequest) => r.status == Approved))
  }

  /** The public list holds exactly the approved requests. */
  lemma AcceptedRequestsExactly(rs: seq<DonationRequest>)
    ensures forall r :: r in AcceptedRequests(rs) <==> r in rs && r.status == Approved
  {
    var approved := Filter(rs, (r: DonationRequest) => r.status == Approved);
    ReverseSameElements(approved);
    forall r | r in rs && r.status == Approved ensures r in approved {
      var i :| 0 <= i < |rs| && rs[i] == r;
    }
  }

  /** `getSingleDonationRequestPublic`: the request, unless it is missing or not approved (404). */
  function PublicRequest(rs: seq<DonationRequest>, id: nat): (r: Option<DonationRequest>)
    ensures r.Some? ==> r.value in rs && r.value.id == id && r.value.status == Approved
  {
    match FindRequest(rs, id)
    case None => None
    case Some(k) => if rs[k].status == Approved then Some(rs[k]) else None
  }

  /**
   * With distinct ids, the public page of a request exists exactly when the
   * request is approved, and then it is also in the public list.
   */
  lemma PublicRequestApprovedOnly(rs: seq<DonationRequest>, next: nat, id: nat)
    requires RequestsValid(rs, next)
    ensures PublicRequest(rs, id).Some? <==> exists j :: 0 <= j < |rs| && rs[j].id == id && rs[j].status == Approved
    ensures PublicRequest(rs, id).Some? ==> PublicRequest(rs, id).value in AcceptedRequests(rs)
  {
    AcceptedRequestsExactly(rs);
    if exists j :: 0 <= j < |rs| && rs[j].id == id && rs[j].status == Approved {
      var j :| 0 <= j < |rs| && rs[j].id == id && rs[j].status == Approved;
      assert FindRequest(rs, id) == Some(j);
    }
  }
}
