/** Backend/Routes/UserRoutes.js: the `/login`, `/register`,
    `/verify-email` and `/signout` handlers as atomic transitions of the
    Users collection, a map from email to user document. Password hashing
    and token signing are abstract; the date strings the handlers store
    (`convertDateToWords`, which reads the clock) arrive as a parameter. */
module UserRoutes {
  import opened Wrappers
  import opened Text
  import opened JwtAuth

  // ---------------------------------------------------------------------
  // Passwords, users, tokens, replies
  // ---------------------------------------------------------------------

  /** The bytes bcrypt reads of a password: its UTF-8 encoding, cut off
      after 72 bytes. */
  function BcryptKey(plain: string): (key: seq<Byte>)
    ensures |key| == if |Utf8(plain)| <= 72 then |Utf8(plain)| else 72
    ensures key <= Utf8(plain)
  {
    var bytes := Utf8(plain);
    if |bytes| <= 72 then bytes else bytes[..72]
  }

  /** An idealised bcrypt hash: salt and cost are left out, so a hash
      stands for exactly the key it was made from. */
  datatype PasswordHash = BcryptHash(key: seq<Byte>)

  /** `bcrypt.hash(plain, 10)`. */
  function HashPassword(plain: string): PasswordHash {
    BcryptHash(BcryptKey(plain))
  }

  /** `bcrypt.compare(plain, hash)`. */
  predicate VerifyPassword(plain: string, hash: PasswordHash) {
    hash.key == BcryptKey(plain)
  }

  /** A stored hash verifies its own password. */
  lemma VerifyHashedPassword(plain: string)
    ensures VerifyPassword(plain, HashPassword(plain))
  {
  }

  /** Only the first 72 bytes count: once a common beginning fills them,
      any continuation verifies against the hash of any other. */
  lemma LongPasswordsCollide(prefix: string, typed: string, stored: string)
    requires |Utf8(prefix)| >= 72
    ensures VerifyPassword(prefix + typed, HashPassword(prefix + stored))
  {
    KeyOfLongPrefix(prefix, typed);
    KeyOfLongPrefix(prefix, stored);
  }

  /** A beginning of 72 bytes or more fixes the key. */
  lemma KeyOfLongPrefix(prefix: string, rest: string)
    requires |Utf8(prefix)| >= 72
    ensures BcryptKey(prefix + rest) == Utf8(prefix)[..72]
  {
    var head := Utf8(prefix);
    var bytes := Utf8(prefix + rest);
    Utf8Append(prefix, rest);
    assert bytes == head + Utf8(rest);
    assert bytes[..72] == head[..72];
  }

  predicate IsAscii(s: string) {
    forall i :: 0 <= i < |s| ==> s[i] as int < 0x80
  }

  /** An ASCII string is encoded one byte per character, as its codes. */
  lemma {:induction false} AsciiUtf8(s: string)
    requires IsAscii(s)
    ensures |Utf8(s)| == |s|
    ensures forall i :: 0 <= i < |s| ==> Utf8(s)[i] == s[i] as int
  {
    if s != [] {
      AsciiUtf8(s[1..]);
      assert Utf8(s) == [s[0] as int] + Utf8(s[1..]);
    }
  }

  /** Up to 72 ASCII characters other than NUL, a hash verifies its own
      password and no other. */
  lemma ShortAsciiPasswordsDistinct(plain: string, other: string)
    requires IsAscii(plain) && IsAscii(other) && |plain| <= 72 && |other| <= 72
    requires '\0' !in plain && '\0' !in other
    ensures VerifyPassword(other, HashPassword(plain)) <==> other == plain
  {
    AsciiUtf8(plain);
    AsciiUtf8(other);
    if other != plain && |other| == |plain| {
      var i :| 0 <= i < |plain| && other[i] != plain[i];
      assert Utf8(other)[i] != Utf8(plain)[i];
    }
  }

  /** One document of the Users collection. */
  datatype User = User(
    email: string,
    password: PasswordHash,
    age: string,
    fname: string,
    lname: string,
    isLoggedIn: bool,
    isVerified: bool,
    createdAt: string,
    updatedAt: string)

  /** What a token carries: `{ email }` for the verification link, the
      whole user document for a login session. */
  datatype Payload = EmailClaim(email: string) | UserClaim(user: User)

  function ClaimedEmail(p: Payload): string {
    match p
    case EmailClaim(e) => e
    case UserClaim(u) => u.email
  }

  /** A request field as JavaScript tests it: absent and "" are falsy. */
  predicate Truthy(field: Option<string>) {
    field.Some? && field.value != ""
  }

  datatype Body =
    | ErrorJson(error: string)            // res.json({ error })
    | MessageJson(message: string)        // res.json({ message })
    | UserAndToken(user: User, token: string)   // res.json([user, token])
    | Html(html: string)                  // res.send(html)
    | StatusText(text: string)            // res.sendStatus(code)
    | EmptyJson                           // res.json()

  /** `ReplyNotModelled`: the middleware passed an object where
      `sendStatus` expects a status code, so the reply is whatever Express
      makes of the exception that follows; the model does not say which. */
  datatype Response = Reply(status: int, body: Body) | ReplyNotModelled

  /** The verification mail `/register` hands to the mail service. */
  datatype Mail = Mail(to: string, subject: string, token: string, link: string)

  const VerifiedPage := "<h1>Email Verified</h1><p>Your email has been successfully verified.</p>"
  const RegisteredMessage :=
    "User registered successfully. A verification email has been sent to your email address."

  // ---------------------------------------------------------------------
  // /register: the missing-field report
  // ---------------------------------------------------------------------

  datatype RegisterBody = RegisterBody(
    email: Option<string>, password: Option<string>, age: Option<string>,
    fname: Option<string>, lname: Option<string>)

  /** The fields `/register` requires, and the words that name them in the
      error message. */
  datatype Field = Email | Password | Age | FirstName | LastName

  function FieldLabel(f: Field): string {
    match f
    case Email => "email"
    case Password => "password"
    case Age => "age"
    case FirstName => "first name"
    case LastName => "last name"
  }

  /** The order in which `/register` checks and reports its fields. */
  const RegisterFieldOrder: seq<Field> := [Email, Password, Age, FirstName, LastName]

  function FieldValue(body: RegisterBody, f: Field): Option<string> {
    match f
    case Email => body.email
    case Password => body.password
    case Age => body.age
    case FirstName => body.fname
    case LastName => body.lname
  }

  predicate IsMissing(body: RegisterBody, f: Field) {
    !Truthy(FieldValue(body, f))
  }

  /** The falsy fields among `fs`, in the order of `fs`. */
  function MissingAmong(body: RegisterBody, fs: seq<Field>): seq<Field> {
    Filter(fs, f => IsMissing(body, f))
  }

  /** The falsy fields, in the fixed order. */
  function MissingFields(body: RegisterBody): seq<Field> {
    MissingAmong(body, RegisterFieldOrder)
  }

  lemma MissingAmongPush(body: RegisterBody, fs: seq<Field>, f: Field)
    ensures MissingAmong(body, fs + [f]) == MissingAmong(body, fs) + (if IsMissing(body, f) then [f] else [])
  {
    FilterPush(fs, f, g => IsMissing(body, g));
  }

  /** The names of `fs`, in order. */
  function Labels(fs: seq<Field>): seq<string> {
    if fs == [] then [] else [FieldLabel(fs[0])] + Labels(fs[1..])
  }

  lemma {:induction false} LabelsPush(fs: seq<Field>, f: Field)
    ensures Labels(fs + [f]) == Labels(fs) + [FieldLabel(f)]
  {
    if fs != [] {
      assert (fs + [f])[1..] == fs[1..] + [f];
      LabelsPush(fs[1..], f);
    }
  }

  lemma {:induction false} LabelsLength(fs: seq<Field>)
    ensures |Labels(fs)| == |fs|
  {
    if fs != [] {
      LabelsLength(fs[1..]);
    }
  }

  predicate AllPresent(body: RegisterBody) {
    Truthy(body.email) && Truthy(body.password) && Truthy(body.age)
      && Truthy(body.fname) && Truthy(body.lname)
  }

  /** Nothing is reported missing exactly when all five fields are truthy. */
  lemma MissingFieldsEmpty(body: RegisterBody)
    ensures MissingFields(body) == [] <==> AllPresent(body)
  {
    var keep := f => IsMissing(body, f);
    if !AllPresent(body) {
      var f :=
        if !Truthy(body.email) then Email
        else if !Truthy(body.password) then Password
        else if !Truthy(body.age) then Age
        else if !Truthy(body.fname) then FirstName
        else LastName;
      assert f in RegisterFieldOrder && keep(f);
      assert f in MissingFields(body);
    } else {
      forall f | f in RegisterFieldOrder ensures !keep(f) {
      }
    }
  }

  /** The list of missing names is empty exactly when all five fields are
      truthy. */
  lemma NothingMissing(body: RegisterBody)
    ensures |Labels(MissingFields(body))| == 0 <==> AllPresent(body)
  {
    MissingFieldsEmpty(body);
    LabelsLength(MissingFields(body));
  }

  /** No two fields share a name: the names differ in their first letter. */
  lemma FieldLabelInjective(f: Field, g: Field)
    ensures FieldLabel(f) == FieldLabel(g) ==> f == g
  {
    if f != g {
      assert FieldLabel(f)[0] != FieldLabel(g)[0];
    }
  }

  /** The labels of `fs` are the names of its members. */
  lemma {:induction false} LabelsMembers(fs: seq<Field>, f: Field)
    ensures FieldLabel(f) in Labels(fs) <==> f in fs
  {
    if fs != [] {
      LabelsMembers(fs[1..], f);
      FieldLabelInjective(fs[0], f);
      assert fs == [fs[0]] + fs[1..];
    }
  }

  /** The message names a field exactly when that field is falsy: every
      field is checked, and no two fields share a name. */
  lemma MissingFieldsNamed(body: RegisterBody, f: Field)
    ensures FieldLabel(f) in Labels(MissingFields(body)) <==> IsMissing(body, f)
  {
    LabelsMembers(MissingFields(body), f);
    assert f in RegisterFieldOrder;
  }

  /** `[f]` when `f` is falsy, otherwise nothing. */
  function IfMissing(body: RegisterBody, f: Field): seq<Field> {
    if IsMissing(body, f) then [f] else []
  }

  /** The falsy fields, checked one by one in the fixed order. */
  lemma MissingFieldsUnrolled(body: RegisterBody)
    ensures MissingFields(body) == IfMissing(body, Email) + IfMissing(body, Password)
      + IfMissing(body, Age) + IfMissing(body, FirstName) + IfMissing(body, LastName)
  {
    var p0: seq<Field> := [];
    var p1 := p0 + [Email];
    var p2 := p1 + [Password];
    var p3 := p2 + [Age];
    var p4 := p3 + [FirstName];
    MissingAmongPush(body, p0, Email);
    MissingAmongPush(body, p1, Password);
    MissingAmongPush(body, p2, Age);
    MissingAmongPush(body, p3, FirstName);
    MissingAmongPush(body, p4, LastName);
    assert p4 + [LastName] == RegisterFieldOrder;
  }

  /** `missingFields` built by successive `push`es of the field names. */
  method CollectMissingFields(body: RegisterBody) returns (missing: seq<string>)
    ensures missing == Labels(MissingFields(body))
  {
    ghost var found: seq<Field> := [];
    missing := [];
    LabelsPush(found, Email);
    if !Truthy(body.email) {
      missing, found := missing + ["email"], found + [Email];
    }
    assert found == IfMissing(body, Email) && missing == Labels(found);
    LabelsPush(found, Password);
    if !Truthy(body.password) {
      missing, found := missing + ["password"], found + [Password];
    }
    assert found == IfMissing(body, Email) + IfMissing(body, Password) && missing == Labels(found);
    LabelsPush(found, Age);
    if !Truthy(body.age) {
      missing, found := missing + ["age"], found + [Age];
    }
    assert found == IfMissing(body, Email) + IfMissing(body, Password) + IfMissing(body, Age)
      && missing == Labels(found);
    LabelsPush(found, FirstName);
    if !Truthy(body.fname) {
      missing, found := missing + ["first name"], found + [FirstName];
    }
    assert found == IfMissing(body, Email) + IfMissing(body, Password) + IfMissing(body, Age)
      + IfMissing(body, FirstName) && missing == Labels(found);
    LabelsPush(found, LastName);
    if !Truthy(body.lname) {
      missing, found := missing + ["last name"], found + [LastName];
    }
    assert found == IfMissing(body, Email) + IfMissing(body, Password) + IfMissing(body, Age)
      + IfMissing(body, FirstName) + IfMissing(body, LastName) && missing == Labels(found);
    MissingFieldsUnrolled(body);
  }

  // ---------------------------------------------------------------------
  // The Users collection and its handlers
  // ---------------------------------------------------------------------

  class UserStore {
    var users: map<string, User>
    const jwt: Signer<Payload>
    const serverHost: string    // process.env.SERVER_HOST

    /** Documents are found by their own email. */
    ghost predicate Valid()
      reads this
    {
      forall e :: e in users ==> users[e].email == e
    }

    constructor (jwt: Signer<Payload>, serverHost: string)
      ensures Valid() && users == map[]
      ensures this.jwt == jwt && this.serverHost == serverHost
    {
      users := map[];
      this.jwt := jwt;
      this.serverHost := serverHost;
    }

    /** The document `/register` inserts. */
    function NewUser(body: RegisterBody, now: string): User
      requires AllPresent(body)
    {
      User(body.email.value, HashPassword(body.password.value), body.age.value,
        body.fname.value, body.lname.value, false, false, now, now)
    }

    /** The mail carrying the verification link with a token for `{ email }`. */
    function VerificationMail(email: string): Mail {
      var token := jwt.sign(EmailClaim(email));
      Mail(email, "Verify Your Email Address", token, serverHost + "/users/verify-email?token=" + token)
    }

    /** POST /login. The guards run in the source's order; only a verified
        user with the right password is logged in, and only that user's
        `isLoggedIn` changes. */
    method Login(email: Option<string>, password: Option<string>) returns (resp: Response)
      requires Valid()
      modifies this
      ensures Valid()
      ensures !Truthy(email) || !Truthy(password) ==>
        resp == Reply(400, ErrorJson("Email and password are required"))
      ensures Truthy(email) && Truthy(password) && email.value !in old(users) ==>
        resp == Reply(400, ErrorJson("Invalid email or password"))
      ensures Truthy(email) && Truthy(password) && email.value in old(users)
              && !VerifyPassword(password.value, old(users)[email.value].password) ==>
        resp == Reply(403, ErrorJson("Invalid email or password"))
      ensures Truthy(email) && Truthy(password) && email.value in old(users)
              && VerifyPassword(password.value, old(users)[email.value].password)
              && !old(users)[email.value].isVerified ==>
        resp == Reply(403, ErrorJson("Please verify your email address"))
      ensures resp.Reply? && resp.status == 200 <==>
        Truthy(email) && Truthy(password) && email.value in old(users)
        && VerifyPassword(password.value, old(users)[email.value].password)
        && old(users)[email.value].isVerified
      ensures resp.Reply? && resp.status == 200 ==>
        var u := old(users)[email.value].(isLoggedIn := true);
        && users == old(users)[email.value := u]
        && resp.body == UserAndToken(u, jwt.sign(UserClaim(u)))
      ensures !(resp.Reply? && resp.status == 200) ==> users == old(users)
    {
      if !Truthy(email) || !Truthy(password) {
        return Reply(400, ErrorJson("Email and password are required"));
      }
      var e, p := email.value, password.value;
      if e !in users {
        return Reply(400, ErrorJson("Invalid email or password"));
      }
      var user := users[e];
      if !VerifyPassword(p, user.password) {
        return Reply(403, ErrorJson("Invalid email or password"));
      }
      if !user.isVerified {
        return Reply(403, ErrorJson("Please verify your email address"));
      }
      users := users[e := users[e].(isLoggedIn := true)];
      user := user.(isLoggedIn := true);
      var token := jwt.sign(UserClaim(user));
      resp := Reply(200, UserAndToken(user, token));
    }

    /** PUT /register. Missing fields are reported all at once, in the fixed
        order; a known email is a conflict; otherwise exactly one unverified,
        logged-out document is added, holding the hashed password, and the
        verification mail is handed on. The reply is 201 whether or not the
        mail goes out: the mail service's result is never looked at. */
    method Register(body: RegisterBody, now: string) returns (resp: Response, mail: Option<Mail>)
      requires Valid()
      modifies this
      ensures Valid()
      ensures !AllPresent(body) ==>
        && MissingFields(body) != []
        && resp == Reply(400, ErrorJson("Missing fields: " + Join(Labels(MissingFields(body)), ", ")))
        && users == old(users) && mail == None
      ensures AllPresent(body) && body.email.value in old(users) ==>
        && resp == Reply(409, ErrorJson("User with this email already exists."))
        && users == old(users) && mail == None
      ensures AllPresent(body) && body.email.value !in old(users) ==>
        && users == old(users)[body.email.value := NewUser(body, now)]
        && resp == Reply(201, MessageJson(RegisteredMessage))
        && mail == Some(VerificationMail(body.email.value))
    {
      var missing := CollectMissingFields(body);
      MissingFieldsEmpty(body);
      NothingMissing(body);
      if |missing| > 0 {
        return Reply(400, ErrorJson("Missing fields: " + Join(missing, ", "))), None;
      }
      var email := body.email.value;
      if email in users {
        return Reply(409, ErrorJson("User with this email already exists.")), None;
      }
      var newUser := NewUser(body, now);
      assert newUser.email == email;
      users := users[email := newUser];
      mail := Some(VerificationMail(email));
      resp := Reply(201, MessageJson(RegisteredMessage));
    }

    /** GET /verify-email?token=. A missing token is a 400 and a token that
        does not verify a 500. Otherwise the document with the token's email,
        if any, becomes verified with a new `updatedAt`, and nothing else
        changes. The reply follows MongoDB's `modifiedCount`: it is 200 only
        when the update changed the document. */
    method VerifyEmail(token: Option<string>, now: string) returns (resp: Response)
      requires Valid()
      modifies this
      ensures Valid()
      ensures !Truthy(token) ==>
        resp == Reply(400, ErrorJson("Missing verification token.")) && users == old(users)
      ensures Truthy(token) && jwt.verify(token.value).None? ==>
        resp == Reply(500, ErrorJson("Invalid or expired token.")) && users == old(users)
      ensures Truthy(token) && jwt.verify(token.value).Some? ==>
        var e := ClaimedEmail(jwt.verify(token.value).value);
        && (e !in old(users) ==> users == old(users))
        && (e in old(users) ==>
              users == old(users)[e := old(users)[e].(isVerified := true, updatedAt := now)])
        && resp == (if e in old(users) && (!old(users)[e].isVerified || old(users)[e].updatedAt != now)
                    then Reply(200, Html(VerifiedPage))
                    else Reply(400, ErrorJson("Email verification failed.")))
    {
      if !Truthy(token) {
        return Reply(400, ErrorJson("Missing verification token."));
      }
      var payload := jwt.verify(token.value);
      if payload.None? {
        return Reply(500, ErrorJson("Invalid or expired token."));
      }
      var e := ClaimedEmail(payload.value);
      var modified := false;
      if e in users {
        var old_user := users[e];
        var updated := old_user.(isVerified := true, updatedAt := now);
        modified := updated != old_user;
        users := users[e := updated];
      }
      if modified {
        resp := Reply(200, Html(VerifiedPage));
      } else {
        resp := Reply(400, ErrorJson("Email verification failed."));
      }
    }

    /** POST /signout behind the middleware: clears `isLoggedIn` on the
        document named by the token's email and nothing else. Tokens stay
        valid: nothing here is consulted when a token is verified. */
    method SignOut(req: Request<Payload>) returns (resp: Response)
      requires Valid()
      modifies this, req
      ensures Valid()
      ensures ExtractToken(req.authorization).None? ==>
        resp == Reply(400, StatusText("Bad Request")) && users == old(users)
      ensures ExtractToken(req.authorization).Some? && jwt.verify(ExtractToken(req.authorization).value).None? ==>
        resp == ReplyNotModelled && users == old(users) && req.user == old(req.user)
      ensures ExtractToken(req.authorization).Some? && jwt.verify(ExtractToken(req.authorization).value).Some? ==>
        var e := ClaimedEmail(jwt.verify(ExtractToken(req.authorization).value).value);
        && resp == Reply(200, EmptyJson)
        && users == (if e in old(users) then old(users)[e := old(users)[e].(isLoggedIn := false)] else old(users))
    {
      var outcome := AuthenticateToken(req, jwt.verify);
      match outcome
      case BadRequest =>
        resp := Reply(400, StatusText("Bad Request"));
      case Denied =>
        resp := ReplyNotModelled;
      case Passed =>
        var e := ClaimedEmail(req.user.value);
        if e in users {
          users := users[e := users[e].(isLoggedIn := false)];
        }
        resp := Reply(200, EmptyJson);
    }
  }

  /** The life of one account: register, a login refused until the email is
      verified, verification through the mailed link, a successful login,
      and a second registration with the same email refused as a conflict. */
  method AccountLifecycle(jwt: Signer<Payload>, host: string, now: string)
    returns (registered: Response, early: Response, verified: Response, login: Response, again: Response)
    requires Sound(jwt)
    ensures registered == Reply(201, MessageJson(RegisteredMessage))
    ensures early == Reply(403, ErrorJson("Please verify your email address"))
    ensures verified == Reply(200, Html(VerifiedPage))
    ensures login.Reply? && login.status == 200 && login.body.UserAndToken?
    ensures login.body.user.isVerified && login.body.user.isLoggedIn
    ensures login.body.user.password == HashPassword("secret1")
    ensures again == Reply(409, ErrorJson("User with this email already exists."))
  {
    var store := new UserStore(jwt, host);
    var body := RegisterBody(Some("a@x.com"), Some("secret1"), Some("30"), Some("A"), Some("B"));
    assert AllPresent(body);
    ghost var user := store.NewUser(body, now);
    var mail;
    registered, mail := store.Register(body, now);
    assert store.users == map["a@x.com" := user];
    early := store.Login(Some("a@x.com"), Some("secret1"));
    assert jwt.verify(mail.value.token) == Some(EmailClaim("a@x.com"));
    verified := store.VerifyEmail(Some(mail.value.token), now);
    assert store.users == map["a@x.com" := user.(isVerified := true)];
    login := store.Login(Some("a@x.com"), Some("secret1"));
    again, mail := store.Register(body, now);
  }

  /** A successful login followed by `/signout` with the login token as
      `Bearer <token>`: the user ends logged out with every other field of
      the document as it was, and no other document changes. */
  method LoginThenSignOut(store: UserStore, email: string, password: string)
    returns (login: Response, signedOut: Response)
    requires store.Valid() && Sound(store.jwt)
    requires email != "" && password != "" && email in store.users
    requires VerifyPassword(password, store.users[email].password) && store.users[email].isVerified
    modifies store
    ensures store.Valid()
    ensures login.Reply? && login.status == 200 && login.body.UserAndToken?
    ensures signedOut == Reply(200, EmptyJson)
    ensures store.users == old(store.users)[email := old(store.users)[email].(isLoggedIn := false)]
  {
    login := store.Login(Some(email), Some(password));
    var token := login.body.token;
    BearerTokenAccepted(store.jwt, UserClaim(login.body.user));
    var req := new Request(Some("Bearer " + token));
    signedOut := store.SignOut(req);
  }

  /** Verifying the same address twice at the same clock reading: the
      document ends verified either way, but the second request changes
      nothing, so MongoDB reports no modified document and it is answered
      with 400. */
  method VerifyEmailTwice(store: UserStore, token: string, now: string)
    returns (first: Response, second: Response)
    requires store.Valid() && token != ""
    requires store.jwt.verify(token).Some? && ClaimedEmail(store.jwt.verify(token).value) in store.users
    modifies store
    ensures var e := ClaimedEmail(store.jwt.verify(token).value);
      store.users == old(store.users)[e := old(store.users)[e].(isVerified := true, updatedAt := now)]
    ensures first.Reply? && (first.status == 200 <==>
      var u := old(store.users)[ClaimedEmail(store.jwt.verify(token).value)];
      !u.isVerified || u.updatedAt != now)
    ensures second == Reply(400, ErrorJson("Email verification failed."))
  {
    first := store.VerifyEmail(Some(token), now);
    second := store.VerifyEmail(Some(token), now);
  }
}
