/** backend/routes/auth.js: registration and login. Emails are trimmed and
    lower-cased before every lookup; passwords are taken as given. bcrypt is the
    pair `hash`/`compare`, jwt.sign (with its secret and seven-day expiry) is
    `sign`, and the ObjectId Mongo assigns to a new user is `userId`. */
module AuthRoutes {
  import opened Js
  import opened Store
  import opened AuthMiddleware

  const MinUserPasswordLength: int := 6

  /** `.trim().toLowerCase()`: no surrounding whitespace and no upper-case letter. */
  function NormalizeEmail(s: string): (e: string)
    ensures IsTrimmed(e) && |e| <= |s|
    ensures forall i :: 0 <= i < |e| ==> !('A' <= e[i] <= 'Z')
  {
    ToLowerKeepsTrimmed(Trim(s));
    ToLower(Trim(s))
  }

  /** The normal form has no surrounding whitespace, no upper-case letter, and
      is a fixed point. */
  lemma NormalizeEmailIdempotent(s: string)
    ensures IsTrimmed(NormalizeEmail(s)) && |NormalizeEmail(s)| <= |s|
    ensures forall i :: 0 <= i < |NormalizeEmail(s)| ==> !('A' <= NormalizeEmail(s)[i] <= 'Z')
    ensures NormalizeEmail(NormalizeEmail(s)) == NormalizeEmail(s)
  {
    var t := Trim(s);
    ToLowerKeepsTrimmed(t);
    TrimOfTrimmed(ToLower(t));
    ToLowerIdempotent(t);
  }

  /** The normal form of a padded address is its lower-cased core. */
  lemma NormalizeEmailOfPadded(a: string, t: string, b: string)
    requires AllSpace(a) && AllSpace(b) && IsTrimmed(t)
    ensures NormalizeEmail(a + t + b) == ToLower(t)
  {
    TrimOfPadded(a, t, b);
  }

  /** Every stored email is in normal form. */
  predicate EmailsNormalized(users: map<string, User>) {
    forall e :: e in users ==> NormalizeEmail(e) == e
  }

  lemma InsertKeepsNormalized(users: map<string, User>, u: User)
    requires EmailsNormalized(users) && NormalizeEmail(u.email) == u.email
    ensures EmailsNormalized(users[u.email := u])
  {
  }

  lemma InsertMaybeNormalized(users: map<string, User>, u: User)
    ensures EmailsNormalized(users) && NormalizeEmail(u.email) == u.email ==> EmailsNormalized(users[u.email := u])
  {
    if EmailsNormalized(users) && NormalizeEmail(u.email) == u.email {
      InsertKeepsNormalized(users, u);
    }
  }

  /** The three body fields as the register handler reads them. */
  datatype Credentials = Credentials(name: string, email: string, password: string)

  /** The name is read trimmed, the email in normal form and the password as
      given; a missing field reads as empty. */
  function RegisterFields(nameRaw: Value, emailRaw: Value, passwordRaw: Value): (c: Credentials)
    ensures IsTrimmed(c.name) && NormalizeEmail(c.email) == c.email
    ensures c.password == StringOr(passwordRaw) && (c.password == "" <==> !Truthy(passwordRaw))
    ensures !Truthy(nameRaw) ==> c.name == ""
    ensures !Truthy(emailRaw) ==> c.email == ""
  {
    NormalizeEmailIdempotent(StringOr(emailRaw));
    Credentials(Trim(StringOr(nameRaw)), NormalizeEmail(StringOr(emailRaw)), StringOr(passwordRaw))
  }

  /** Register reads a padded name as its core and a padded email as its
      lower-cased core. */
  lemma RegisterFieldsOfPadded(a: string, t: string, b: string, n: Num, c: string, e: string, d: string, m: Num,
                               passwordRaw: Value)
    requires AllSpace(a) && AllSpace(b) && IsTrimmed(t)
    requires AllSpace(c) && AllSpace(d) && IsTrimmed(e)
    ensures RegisterFields(Str(a + t + b, n), Str(c + e + d, m), passwordRaw).name == t
    ensures RegisterFields(Str(a + t + b, n), Str(c + e + d, m), passwordRaw).email == ToLower(e)
  {
    assert StringOr(Str(a + t + b, n)) == a + t + b;
    assert StringOr(Str(c + e + d, m)) == c + e + d;
    TrimOfPadded(a, t, b);
    NormalizeEmailOfPadded(c, e, d);
  }

  datatype AuthError = AllFieldsRequired | PasswordTooShort | EmailTaken | LoginFieldsRequired | InvalidCredentials

  /** Every failure is a 400 with one of these messages. */
  function ErrorMessage(e: AuthError): string {
    match e
    case AllFieldsRequired => "All fields are required."
    case PasswordTooShort => "Password must be at least 6 characters."
    case EmailTaken => "Email already registered."
    case LoginFieldsRequired => "Email and password required."
    case InvalidCredentials => "Invalid credentials."
  }

  /** `{ token, user: { id, name, email } }`, or the error. */
  datatype AuthReply = Authenticated(token: string, user: Claims) | Failed(error: AuthError)

  /** The claims signed for a user, and the session reply built from them. */
  function Session(u: User, sign: Claims -> string): (r: AuthReply)
    ensures r.Authenticated? && r.user == Claims(u.id, u.email, u.name) && r.token == sign(r.user)
  {
    var claims := Claims(u.id, u.email, u.name);
    Authenticated(sign(claims), claims)
  }

  /** The register checks in order: all fields present, password length, email
      not yet taken. */
  function CheckRegister(users: map<string, User>, c: Credentials): (r: Option<AuthError>)
    ensures r.None? <==> c.name != "" && c.email != "" && |c.password| >= MinUserPasswordLength && c.email !in users
    ensures r == Some(AllFieldsRequired) <==> c.name == "" || c.email == "" || c.password == ""
    ensures r == Some(PasswordTooShort) <==>
      c.name != "" && c.email != "" && c.password != "" && |c.password| < MinUserPasswordLength
    ensures r == Some(EmailTaken) <==>
      c.name != "" && c.email != "" && |c.password| >= MinUserPasswordLength && c.email in users
  {
    if c.name == "" || c.email == "" || c.password == "" then Some(AllFieldsRequired)
    else if |c.password| < MinUserPasswordLength then Some(PasswordTooShort)
    else if c.email in users then Some(EmailTaken)
    else None
  }

  /** The document User.create stores. */
  function NewUser(userId: string, c: Credentials, hash: string -> string): (u: User)
    ensures u.email == c.email && u.name == c.name && u.id == userId
    ensures u.passwordHash == hash(c.password)
  {
    User(userId, c.name, c.email, hash(c.password))
  }

  /** POST /auth/register, on the body fields as RegisterFields reads them
      (which puts the email in normal form): the checks, then User.create and
      the signed session. A refusal changes nothing; success stores one user
      under the email, so stored emails stay in normal form. */
  method Register(db: Db, c: Credentials, userId: string, hash: string -> string, sign: Claims -> string)
    returns (r: AuthReply)
    requires db.Valid()
    modifies db
    ensures db.Valid() && db.vaults == old(db.vaults) && db.blobs == old(db.blobs)
    ensures var e := CheckRegister(old(db.users), c);
      && (e.Some? ==> r == Failed(e.value) && db.users == old(db.users))
      && (e.None? ==> db.users == old(db.users)[c.email := NewUser(userId, c, hash)]
                      && r == Session(NewUser(userId, c, hash), sign))
    ensures EmailsNormalized(old(db.users)) && NormalizeEmail(c.email) == c.email ==> EmailsNormalized(db.users)
  {
    var e := CheckRegister(db.users, c);
    if e.Some? {
      return Failed(e.value);
    }
    var u := NewUser(userId, c, hash);
    InsertMaybeNormalized(db.users, u);
    db.users := db.users[c.email := u];
    r := Session(u, sign);
  }

  /** A successful registration keeps every stored email in normal form, so
      the lookups of later registrations and logins find it. */
  lemma RegisterKeepsEmailsNormal(users: map<string, User>, userId: string, nameRaw: Value, emailRaw: Value,
                                  passwordRaw: Value, hash: string -> string)
    requires EmailsNormalized(users)
    ensures var c := RegisterFields(nameRaw, emailRaw, passwordRaw);
      EmailsNormalized(users[c.email := NewUser(userId, c, hash)])
  {
    var c := RegisterFields(nameRaw, emailRaw, passwordRaw);
    InsertKeepsNormalized(users, NewUser(userId, c, hash));
  }

  /** POST /auth/login. Changes nothing. An unknown email and a wrong password
      give the same answer. */
  function Login(users: map<string, User>, emailRaw: Value, passwordRaw: Value,
                 compare: (string, string) -> bool, sign: Claims -> string): (r: AuthReply)
    ensures var e := NormalizeEmail(StringOr(emailRaw));
      var p := StringOr(passwordRaw);
      && (r.Authenticated? <==> e != "" && p != "" && e in users && compare(p, users[e].passwordHash))
      && (r.Authenticated? ==> r == Session(users[e], sign))
      && (r == Failed(LoginFieldsRequired) <==> e == "" || p == "")
      && (r.Failed? ==> r.error == LoginFieldsRequired || r.error == InvalidCredentials)
  {
    var email := NormalizeEmail(StringOr(emailRaw));
    var password := StringOr(passwordRaw);
    if email == "" || password == "" then Failed(LoginFieldsRequired)
    else if email !in users then Failed(InvalidCredentials)
    else if !compare(password, users[email].passwordHash) then Failed(InvalidCredentials)
    else Session(users[email], sign)
  }

  /** A registered user logs in with the same password and any spelling of the
      email that normalises to the same address, and gets the same session. */
  lemma RegisterThenLogin(users: map<string, User>, userId: string, nameRaw: Value, emailRaw: Value,
                          passwordRaw: Value, emailAgain: Value, hash: string -> string,
                          compare: (string, string) -> bool, sign: Claims -> string)
    requires var c := RegisterFields(nameRaw, emailRaw, passwordRaw);
      && CheckRegister(users, c).None?
      && NormalizeEmail(StringOr(emailAgain)) == c.email
      && compare(c.password, hash(c.password))
    ensures var c := RegisterFields(nameRaw, emailRaw, passwordRaw);
      var u := NewUser(userId, c, hash);
      Login(users[c.email := u], emailAgain, passwordRaw, compare, sign) == Session(u, sign)
  {
  }

  /** Once an address is registered, registering it again with valid fields is
      refused as taken. */
  lemma RegisterOnce(users: map<string, User>, userId: string, c: Credentials, c2: Credentials, hash: string -> string)
    requires CheckRegister(users, c).None?
    requires c2.email == c.email && c2.name != "" && |c2.password| >= MinUserPasswordLength
    ensures CheckRegister(users[c.email := NewUser(userId, c, hash)], c2) == Some(EmailTaken)
  {
  }

  /** Login does not tell an unknown email from a wrong password. */
  lemma FailuresIndistinguishable(users: map<string, User>, emailRaw: Value, passwordRaw: Value,
                                  compare: (string, string) -> bool, sign: Claims -> string)
    requires StringOr(passwordRaw) != ""
    ensures var e := NormalizeEmail(StringOr(emailRaw));
      e != "" && e !in users ==> Login(users, emailRaw, passwordRaw, compare, sign) == Failed(InvalidCredentials)
    ensures var e := NormalizeEmail(StringOr(emailRaw));
      e != "" && e in users && !compare(StringOr(passwordRaw), users[e].passwordHash) ==>
      Login(users, emailRaw, passwordRaw, compare, sign) == Failed(InvalidCredentials)
  {
  }

  /** Login reads the email only through its normal form: a body email and its
      normalised spelling give the same answer. */
  lemma LoginNormalizesEmail(users: map<string, User>, s: string, n1: Num, n2: Num, passwordRaw: Value,
                             compare: (string, string) -> bool, sign: Claims -> string)
    ensures Login(users, Str(s, n1), passwordRaw, compare, sign)
         == Login(users, Str(NormalizeEmail(s), n2), passwordRaw, compare, sign)
  {
    var a := StringOr(Str(s, n1));
    var b := StringOr(Str(NormalizeEmail(s), n2));
    assert a == s && b == NormalizeEmail(s);
    NormalizeEmailIdempotent(s);
    assert NormalizeEmail(a) == NormalizeEmail(b);
  }
}
