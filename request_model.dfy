/** The funding request (the DonationRequest schema): its status and field constraints. */
module RequestModel {
  import opened Wrappers
  import opened Text

  datatype RequestStatus = Pending | Approved | Rejected | Achieved

  /** The status as stored and as written in a status-update URL. */
  function StatusName(s: RequestStatus): string {
    match s
    case Pending => "pending"
    case Approved => "approved"
    case Rejected => "rejected"
    case Achieved => "achieved"
  }

  /** The whitelist check of a status-update request: one of the four names, or nothing. */
  function ParseStatus(name: string): (r: Option<RequestStatus>)
    ensures r.Some? ==> StatusName(r.value) == name
    ensures r.None? ==> forall s: RequestStatus :: StatusName(s) != name
  {
    if name == "pending" then Some(Pending)
    else if name == "approved" then Some(Approved)
    else if name == "rejected" then Some(Rejected)
    else if name == "achieved" then Some(Achieved)
    else None
  }

  /** Every status name is accepted, as the status it names. */
  lemma ParseStatusName(s: RequestStatus)
    ensures ParseStatus(StatusName(s)) == Some(s)
  {
  }

  datatype Gender = Male | Female | Other

  /** The gender enum: "male", "female" or "other". */
  function ParseGender(name: string): (r: Option<Gender>)
    ensures r.Some? <==> name in {"male", "female", "other"}
  {
    if name == "male" then Some(Male)
    else if name == "female" then Some(Female)
    else if name == "other" then Some(Other)
    else None
  }

  /**
   * One funding request. `donationamount` is the free-text goal; the file
   * fields hold upload file names; `createdAt` is in milliseconds.
   */
  datatype DonationRequest = DonationRequest(
    id: nat,
    userId: nat,
    patientname: string,
    age: int,
    gender: Gender,
    medicalproblem: string,
    medicalreport: string,
    identificationproof: string,
    number: string,
    donationamount: Option<string>,
    otherproof: string,
    overview: string,
    status: RequestStatus,
    createdAt: nat)

  /** `match: /^[0-9]{10}$/`. */
  predicate TenDigits(s: string) {
    |s| == 10 && AllDigits(s)
  }

  /** What the schema's validators require of a stored request. */
  predicate ValidRequest(r: DonationRequest) {
    && r.patientname != []
    && 1 <= r.age <= 100
    && r.medicalreport != []
    && r.identificationproof != []
    && TenDigits(r.number)
  }

  /** Changing only the status keeps a request valid: the status enum is the type itself. */
  lemma StatusChangeKeepsValid(r: DonationRequest, s: RequestStatus)
    requires ValidRequest(r)
    ensures ValidRequest(r.(status := s))
  {
  }
}
