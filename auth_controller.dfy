/**
 * Accounts: registration, login, and the password-reset one-time code kept on
 * the user record (set with a ten-minute expiry, cleared when the mail cannot
 * be sent, and cleared again by the reset that uses it).
 */
module AuthController {
  import opened Wrappers
  import opened Seqs
  import opened Text

  /**
   * A user record. `passwordHash` is what bcrypt stored; `resetOtp` and
   * `resetExpires` (milliseconds) are absent unless a reset is in progress.
   */
  datatype User = User(
    id: nat,
    username: string,
    email: string,
    mobile: string,
    address: string,
    passwordHash: string,
    role: string,
    resetOtp: Option<string>,
    resetExpires: Option<nat>)

  /** The user collection and the id source. */
  datatype Directory = Directory(users: seq<User>, nextId: nat)

  /** Ids below the id source and distinct, and no two accounts with the same email. */
  predicate DirectoryValid(d: Directory) {
    && (forall i :: 0 <= i < |d.users| ==> d.users[i].id < d.nextId)
    && (forall i, j :: 0 <= i < j < |d.users| ==> d.users[i].id != d.users[j].id && d.users[i].email != d.users[j].email)
  }

  /** What a handler answers, and the directory it leaves behind. */
  datatype AuthOutcome<R> = AuthOutcome(reply: R, after: Directory)

  /** JavaScript truthiness of an optional text field: present and not empty. */
  predicate Present(x: Option<string>) {
    x.Some? && x.value != []
  }

  /** `User.findOne({ email })`. */
  function FindByEmail(us: seq<User>, email: string): (k: Option<nat>)
    ensures k.Some? ==> k.value < |us| && us[k.value].email == email
    ensures k.None? ==> forall j :: 0 <= j < |us| ==> us[j].email != email
  {
    IndexWhere(us, (u: User) => u.email == email)
  }

  /** With distinct emails, the account with an email is found at its own position. */
  lemma FindByEmailUnique(d: Directory, k: nat)
    requires DirectoryValid(d) && k < |d.users|
    ensures FindByEmail(d.users, d.users[k].email) == Some(k)
  {
  }

  /** The registration fields (the email arrives as `mail`). */
  datatype RegisterForm = RegisterForm(
    username: Option<string>,
    mail: Option<string>,
    mobile: Option<string>,
    address: Option<string>,
    password: Option<string>,
    role: Option<string>)

  predicate FormComplete(f: RegisterForm) {
    Present(f.username) && Present(f.mail) && Present(f.mobile) && Present(f.address) && Present(f.password) && Present(f.role)
  }

  datatype RegisterReply = RegisterMissingFields | UserExists | Registered(user: User)

  /**
   * `registerUser`: 400 when a field is missing, 400 when the email is taken,
   * otherwise a new account whose password is stored as `hash(password, salt)`
   * (bcrypt with a fresh salt).
   */
  function Register(d: Directory, form: RegisterForm, salt: nat, hash: (string, nat) -> string): AuthOutcome<RegisterReply> {
    if !FormComplete(form) then AuthOutcome(RegisterMissingFields, d)
    else if FindByEmail(d.users, form.mail.value).Some? then AuthOutcome(UserExists, d)
    else
      var u := User(d.nextId, form.username.value, form.mail.value, form.mobile.value, form.address.value,
                    hash(form.password.value, salt), form.role.value, None, None);
      AuthOutcome(Registered(u), Directory(d.users + [u], d.nextId + 1))
  }

  /**
   * A missing field and a taken email each answer 400 and create no account;
   * otherwise the account is appended with the given fields, the hashed
   * password and no reset in progress.
   */
  lemma RegisterEffect(d: Directory, form: RegisterForm, salt: nat, hash: (string, nat) -> string)
    ensures var o := Register(d, form, salt, hash);
      && (o.reply.RegisterMissingFields? <==> !FormComplete(form))
      && (o.reply.UserExists? <==> FormComplete(form) && exists j :: 0 <= j < |d.users| && d.users[j].email == form.mail.value)
      && (!o.reply.Registered? ==> o.after == d)
      && (o.reply.Registered? ==>
            && o.after.users == d.users + [o.reply.user]
            && o.reply.user.id == d.nextId && o.reply.user.email == form.mail.value
            && o.reply.user.username == form.username.value && o.reply.user.role == form.role.value
            && o.reply.user.passwordHash == hash(form.password.value, salt)
            && o.reply.user.resetOtp.None? && o.reply.user.resetExpires.None?)
  {
  }

  lemma RegisterKeepsValid(d: Directory, form: RegisterForm, salt: nat, hash: (string, nat) -> string)
    requires DirectoryValid(d)
    ensures DirectoryValid(Register(d, form, salt, hash).after)
  {
  }

  datatype LoginReply = InvalidCredentials | LoggedIn(userId: nat, role: string)

  /**
   * `loginUser`: the account with that email, if `verify` (bcrypt's compare)
   * accepts the password against its stored hash; otherwise 401.
   */
  function Login(d: Directory, email: string, password: string, verify: (string, string) -> bool): LoginReply {
    match FindByEmail(d.users, email)
    case None => InvalidCredentials
    case Some(k) => if verify(password, d.users[k].passwordHash) then LoggedIn(d.users[k].id, d.users[k].role) else InvalidCredentials
  }

  /** With distinct emails, login succeeds exactly for an account with that email whose hash accepts the password. */
  lemma LoginSpec(d: Directory, email: string, password: string, verify: (string, string) -> bool)
    requires DirectoryValid(d)
    ensures Login(d, email, password, verify).LoggedIn? <==>
      exists k :: 0 <= k < |d.users| && d.users[k].email == email && verify(password, d.users[k].passwordHash)
    ensures Login(d, email, password, verify).LoggedIn? ==>
      exists k :: 0 <= k < |d.users| && d.users[k].email == email && d.users[k].id == Login(d, email, password, verify).userId
  {
    if exists k :: 0 <= k < |d.users| && d.users[k].email == email && verify(password, d.users[k].passwordHash) {
      var k :| 0 <= k < |d.users| && d.users[k].email == email && verify(password, d.users[k].passwordHash);
      FindByEmailUnique(d, k);
    }
  }

  /** When the hash check accepts what was hashed, a new account can log in with the password it registered with. */
  lemma RegisterThenLogin(d: Directory, form: RegisterForm, salt: nat, hash: (string, nat) -> string,
                          verify: (string, string) -> bool)
    requires DirectoryValid(d)
    requires forall p, s :: verify(p, hash(p, s))
    requires Register(d, form, salt, hash).reply.Registered?
    ensures var o := Register(d, form, salt, hash);
      Login(o.after, form.mail.value, form.password.value, verify) == LoggedIn(o.reply.user.id, form.role.value)
  {
    var o := Register(d, form, salt, hash);
    RegisterKeepsValid(d, form, salt, hash);
    FindByEmailUnique(o.after, |d.users|);
  }

  /** The code `Math.floor(100000 + Math.random() * 900000)`, for `random` in [0, 1). */
  function OtpCode(random: real): (code: nat)
    requires 0.0 <= random < 1.0
    ensures 100000 <= code <= 999999
  {
    var x := 100000.0 + random * 900000.0;
    assert 100000.0 <= x < 1000000.0;
    x.Floor
  }

  /** The code as text always has six digits. */
  lemma OtpHasSixDigits(random: real)
    requires 0.0 <= random < 1.0
    ensures |Decimal(OtpCode(random))| == 6 && AllDigits(Decimal(OtpCode(random)))
  {
    assert Pow10(5) == 100000 && Pow10(6) == 1000000;
    DecimalLength(OtpCode(random), 5);
  }

  /** How long a reset code stays valid: `10 * 60 * 1000` milliseconds. */
  const OtpLifetime: nat := 600000

  datatype ForgotReply = ForgotMissingEmail | ForgotUnknownEmail | OtpSent | MailFailed

  /**
   * `forgotPassword`: 400 without an email, 404 for an unknown one; otherwise
   * the account gets a fresh code expiring ten minutes from `now`, and when
   * the mail cannot be sent (`mailFails`) both fields are cleared again and
   * the answer is 500.
   */
  function Forgot(d: Directory, email: Option<string>, now: nat, random: real, mailFails: bool): AuthOutcome<ForgotReply>
    requires 0.0 <= random < 1.0
  {
    if !Present(email) then AuthOutcome(ForgotMissingEmail, d)
    else match FindByEmail(d.users, email.value)
      case None => AuthOutcome(ForgotUnknownEmail, d)
      case Some(k) =>
        var u := d.users[k].(resetOtp := Some(Decimal(OtpCode(random))), resetExpires := Some(now + OtpLifetime));
        if mailFails then AuthOutcome(MailFailed, d.(users := d.users[k := u.(resetOtp := None, resetExpires := None)]))
        else AuthOutcome(OtpSent, d.(users := d.users[k := u]))
  }

  /**
   * Without an email the answer is 400 and for an unknown email 404, with no
   * change. Otherwise only that account's reset fields change: to the code and
   * `now + 600000` when the mail goes out, to nothing when it fails.
   */
  lemma ForgotEffect(d: Directory, email: Option<string>, now: nat, random: real, mailFails: bool)
    requires 0.0 <= random < 1.0
    ensures var o := Forgot(d, email, now, random, mailFails);
      && (o.reply.ForgotMissingEmail? <==> !Present(email))
      && (o.reply.ForgotUnknownEmail? <==> Present(email) && forall j :: 0 <= j < |d.users| ==> d.users[j].email != email.value)
      && (o.reply.ForgotMissingEmail? || o.reply.ForgotUnknownEmail? ==> o.after == d)
      && (o.reply.OtpSent? || o.reply.MailFailed? ==>
            var k := FindByEmail(d.users, email.value).value;
            && o.reply.MailFailed? == mailFails
            && |o.after.users| == |d.users| && o.after.nextId == d.nextId
            && o.after.users[k] == d.users[k].(resetOtp := o.after.users[k].resetOtp, resetExpires := o.after.users[k].resetExpires)
            && (mailFails ==> o.after.users[k].resetOtp.None? && o.after.users[k].resetExpires.None?)
            && (!mailFails ==> o.after.users[k].resetOtp == Some(Decimal(OtpCode(random))) &&
                               o.after.users[k].resetExpires == Some(now + OtpLifetime))
            && forall j :: 0 <= j < |d.users| && j != k ==> o.after.users[j] == d.users[j])
  {
  }

  lemma ForgotKeepsValid(d: Directory, email: Option<string>, now: nat, random: real, mailFails: bool)
    requires DirectoryValid(d) && 0.0 <= random < 1.0
    ensures DirectoryValid(Forgot(d, email, now, random, mailFails).after)
  {
  }

  datatype ResetReply = ResetMissingFields | InvalidOtp | PasswordReset

  /** The account `User.findOne({ email, resetPasswordOTP: otp, resetPasswordExpires: { $gt: now } })` would match. */
  predicate OtpMatches(u: User, email: string, otp: string, now: nat) {
    u.email == email && u.resetOtp == Some(otp) && u.resetExpires.Some? && u.resetExpires.value > now
  }

  /**
   * `resetPassword`: 400 when a field is missing; 400 unless the account with
   * that email holds that code and it has not expired; otherwise the new
   * password is stored hashed and both reset fields are cleared.
   */
  function Reset(d: Directory, email: Option<string>, otp: Option<string>, newPassword: Option<string>, now: nat,
                 salt: nat, hash: (string, nat) -> string): AuthOutcome<ResetReply>
  {
    if !Present(email) || !Present(otp) || !Present(newPassword) then AuthOutcome(ResetMissingFields, d)
    else match IndexWhere(d.users, (u: User) => OtpMatches(u, email.value, otp.value, now))
      case None => AuthOutcome(InvalidOtp, d)
      case Some(k) =>
        var u := d.users[k].(passwordHash := hash(newPassword.value, salt), resetOtp := None, resetExpires := None);
        AuthOutcome(PasswordReset, d.(users := d.users[k := u]))
  }

  /**
   * A reset succeeds exactly when every field is given and the account with
   * that email holds that code with an expiry strictly after `now`; a refused
   * reset changes nothing, and a successful one changes only that account's
   * password and reset fields.
   */
  lemma ResetEffect(d: Directory, email: Option<string>, otp: Option<string>, newPassword: Option<string>, now: nat,
                    salt: nat, hash: (string, nat) -> string)
    ensures var o := Reset(d, email, otp, newPassword, now, salt, hash);
      && (o.reply.ResetMissingFields? <==> !Present(email) || !Present(otp) || !Present(newPassword))
      && (o.reply.PasswordReset? <==>
            Present(email) && Present(otp) && Present(newPassword) &&
            exists k :: 0 <= k < |d.users| && OtpMatches(d.users[k], email.value, otp.value, now))
      && (!o.reply.PasswordReset? ==> o.after == d)
      && (o.reply.PasswordReset? ==>
            exists k :: 0 <= k < |d.users| && d.users[k].email == email.value &&
              o.after.users == d.users[k := d.users[k].(passwordHash := hash(newPassword.value, salt),
                                                      resetOtp := None, resetExpires := None)])
  {
    var o := Reset(d, email, otp, newPassword, now, salt, hash);
    if o.reply.PasswordReset? {
      var k := IndexWhere(d.users, (u: User) => OtpMatches(u, email.value, otp.value, now)).value;
      assert d.users[k].email == email.value;
    }
  }

  lemma ResetKeepsValid(d: Directory, email: Option<string>, otp: Option<string>, newPassword: Option<string>, now: nat,
                        salt: nat, hash: (string, nat) -> string)
    requires DirectoryValid(d)
    ensures DirectoryValid(Reset(d, email, otp, newPassword, now, salt, hash).after)
  {
  }

  /** A code cannot be used twice: after a successful reset, the same code is refused at any later time. */
  lemma ResetSingleUse(d: Directory, email: Option<string>, otp: Option<string>, newPassword: Option<string>, now: nat,
                       salt: nat, hash: (string, nat) -> string, newPassword2: Option<string>, now2: nat, salt2: nat)
    requires DirectoryValid(d)
    requires Reset(d, email, otp, newPassword, now, salt, hash).reply == PasswordReset
    ensures var d' := Reset(d, email, otp, newPassword, now, salt, hash).after;
      Reset(d', email, otp, newPassword2, now2, salt2, hash).reply != PasswordReset
  {
    var d' := Reset(d, email, otp, newPassword, now, salt, hash).after;
    var k := IndexWhere(d.users, (u: User) => OtpMatches(u, email.value, otp.value, now)).value;
    forall j | 0 <= j < |d'.users| ensures !OtpMatches(d'.users[j], email.value, otp.value, now2) {
      if j != k {
        assert d'.users[j] == d.users[j];
        assert d.users[j].email != d.users[k].email;
      }
    }
  }

  /**
   * The code a delivered mail carries resets the password exactly while it is
   * fresh: at any time before `now + 600000`, and never from then on.
   */
  lemma ForgotThenReset(d: Directory, email: string, now: nat, random: real, newPassword: string, now2: nat,
                        salt: nat, hash: (string, nat) -> string)
    requires DirectoryValid(d) && 0.0 <= random < 1.0 && email != [] && newPassword != []
    requires Forgot(d, Some(email), now, random, false).reply == OtpSent
    ensures var d' := Forgot(d, Some(email), now, random, false).after;
      (Reset(d', Some(email), Some(Decimal(OtpCode(random))), Some(newPassword), now2, salt, hash).reply == PasswordReset
       <==> now2 < now + OtpLifetime)
  {
    var d' := Forgot(d, Some(email), now, random, false).after;
    var otp := Decimal(OtpCode(random));
    var k := FindByEmail(d.users, email).value;
    ForgotKeepsValid(d, Some(email), now, random, false);
    ResetEffect(d', Some(email), Some(otp), Some(newPassword), now2, salt, hash);
    assert OtpMatches(d'.users[k], email, otp, now2) <==> now2 < now + OtpLifetime;
    forall j | 0 <= j < |d'.users| && j != k ensures !OtpMatches(d'.users[j], email, otp, now2) {
      assert d'.users[j].email != d'.users[k].email;
    }
  }

  /** When the mail fails, no code works for that account until a new one is sent. */
  lemma MailFailureVoidsOtp(d: Directory, email: string, now: nat, random: real, otp: Option<string>,
                            newPassword: Option<string>, now2: nat, salt: nat, hash: (string, nat) -> string)
    requires DirectoryValid(d) && 0.0 <= random < 1.0 && email != []
    requires Forgot(d, Some(email), now, random, true).reply == MailFailed
    ensures var d' := Forgot(d, Some(email), now, random, true).after;
      Reset(d', Some(email), otp, newPassword, now2, salt, hash).reply != PasswordReset
  {
    var d' := Forgot(d, Some(email), now, random, true).after;
    var k := FindByEmail(d.users, email).value;
    ForgotKeepsValid(d, Some(email), now, random, true);
    if Present(otp) && Present(newPassword) {
      forall j | 0 <= j < |d'.users| ensures !OtpMatches(d'.users[j], email, otp.value, now2) {
        if j != k {
          assert d'.users[j].email != d'.users[k].email;
        }
      }
    }
  }

  /** The user collection, whose records the handlers update in place. */
  class Accounts {
    var users: seq<User>
    var nextId: nat

    function Snapshot(): Directory
      reads this
    {
      Directory(users, nextId)
    }

    ghost predicate Valid()
      reads this
    {
      DirectoryValid(Directory(users, nextId))
    }

    constructor ()
      ensures Valid() && users == []
    {
      users, nextId := [], 0;
    }

    /** `registerUser`. */
    method RegisterUser(form: RegisterForm, salt: nat, hash: (string, nat) -> string) returns (reply: RegisterReply)
      requires Valid()
      modifies this
      ensures Valid()
      ensures reply == Register(old(Snapshot()), form, salt, hash).reply
      ensures Snapshot() == Register(old(Snapshot()), form, salt, hash).after
    {
      if !FormComplete(form) {
        return RegisterMissingFields;
      }
      var existing := FindByEmail(users, form.mail.value);
      if existing.Some? {
        return UserExists;
      }
      var u := User(nextId, form.username.value, form.mail.value, form.mobile.value, form.address.value,
                    hash(form.password.value, salt), form.role.value, None, None);
      users := users + [u];
      nextId := nextId + 1;
      reply := Registered(u);
    }

    /** `forgotPassword`: save the code and its expiry, then clear both if the mail fails. */
    method ForgotPassword(email: Option<string>, now: nat, random: real, mailFails: bool) returns (reply: ForgotReply)
      requires Valid() && 0.0 <= random < 1.0
      modifies this
      ensures Valid()
      ensures reply == Forgot(old(Snapshot()), email, now, random, mailFails).reply
      ensures Snapshot() == Forgot(old(Snapshot()), email, now, random, mailFails).after
    {
      if !Present(email) {
        return ForgotMissingEmail;
      }
      var found := FindByEmail(users, email.value);
      if found.None? {
        return ForgotUnknownEmail;
      }
      var k := found.value;
      var otp := Decimal(OtpCode(random));
      users := users[k := users[k].(resetOtp := Some(otp), resetExpires := Some(now + OtpLifetime))];
      if mailFails {
        users := users[k := users[k].(resetOtp := None, resetExpires := None)];
        return MailFailed;
      }
      reply := OtpSent;
    }

    /** `resetPassword`. */
    method ResetPassword(email: Option<string>, otp: Option<string>, newPassword: Option<string>, now: nat,
                         salt: nat, hash: (string, nat) -> string) returns (reply: ResetReply)
      requires Valid()
      modifies this
      ensures Valid()
      ensures reply == Reset(old(Snapshot()), email, otp, newPassword, now, salt, hash).reply
      ensures Snapshot() == Reset(old(Snapshot()), email, otp, newPassword, now, salt, hash).after
    {
      if !Present(email) || !Present(otp) || !Present(newPassword) {
        return ResetMissingFields;
      }
      var found := IndexWhere(users, (u: User) => OtpMatches(u, email.value, otp.value, now));
      if found.None? {
        return InvalidOtp;
      }
      var k := found.value;
      users := users[k := users[k].(passwordHash := hash(newPassword.value, salt), resetOtp := None, resetExpires := None)];
      reply := PasswordReset;
    }
  }
}
