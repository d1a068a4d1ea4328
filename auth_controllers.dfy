/** Account creation and sign-in (controllers/authControllers.js): two
    ordered chains of checks over the request body, the user table, the
    bcrypt hash and comparison, and the access-token signer. bcrypt and the
    signer are parameters: `hash(password)` is what bcrypt.hash resolves to,
    `compare(password, stored)` what bcrypt.compare resolves to, and
    `mint(id)` the token createAccessToken({ id }) returns. */
module AuthControllers {
  import opened Js
  import opened Http
  import opened Models
  import opened Db
  import Validation

  /** Some user is registered under exactly this email. */
  predicate Registered(users: map<Id, User>, email: string) {
    exists id | id in users :: users[id].email == email
  }

  /** The three signup fields are strings (`typeof … === "string"`). */
  predicate AllStrings(name: JsValue, email: JsValue, password: JsValue) {
    name.Str? && email.Str? && password.Str?
  }

  /** The checks signup makes before it reads the store, in order; None
      when all pass. */
  function SignupRefusal(name: JsValue, email: JsValue, password: JsValue): (r: Option<ErrorKind>)
    ensures r == None ==> && AllStrings(name, email, password) && name.s != "" && email.s != ""
                          && |password.s| >= 4 && Validation.ValidateEmail(email)
    ensures r == None <==> && Truthy(name) && Truthy(email) && Truthy(password)
                           && AllStrings(name, email, password) && |password.s| >= 4
                           && Validation.ValidateEmail(email)
    ensures r == Some(MissingFields) <==> !Truthy(name) || !Truthy(email) || !Truthy(password)
    ensures r == Some(NotStrings) ==> !AllStrings(name, email, password)
  {
    if !Truthy(name) || !Truthy(email) || !Truthy(password) then Some(MissingFields)
    else if !AllStrings(name, email, password) then Some(NotStrings)
    else if |password.s| < 4 then Some(ShortPassword)
    else if !Validation.ValidateEmail(email) then Some(InvalidEmail)
    else None
  }

  /** A password of fewer than four characters is refused whatever else the
      request holds, once the fields are present strings. */
  lemma ShortPasswordRefused(name: string, email: string, password: string)
    requires name != "" && email != "" && password != ""
    requires |password| < 4
    ensures SignupRefusal(Str(name), Str(email), Str(password)) == Some(ShortPassword)
  {
  }

  /** A number sent as a password is present but not a string. */
  lemma NumericPasswordRefused(name: string, email: string, n: int)
    requires name != "" && email != "" && n != 0
    ensures SignupRefusal(Str(name), Str(email), Num(n)) == Some(NotStrings)
  {
  }

  /** signup: the checks of SignupRefusal (400), then an already registered
      email (400, an exact and case-sensitive comparison), then a falsy hash
      (500), then User.create, which the schema can still refuse (500); on
      success exactly one user is added, holding the hash, not the
      password. */
  method Signup(db: Store, name: JsValue, email: JsValue, password: JsValue,
                hash: string -> string, isEmail: string -> bool, joiningTime: int)
    returns (r: Reply<()>)
    requires db.Valid()
    modifies db
    ensures db.Valid() && db.tasks == old(db.tasks)
    ensures SignupRefusal(name, email, password).Some? ==>
              r == Refused(400, SignupRefusal(name, email, password).value)
    ensures SignupRefusal(name, email, password).None? && Registered(old(db.users), email.s) ==>
              r == Refused(400, EmailTaken)
    ensures r.Done? <==>
              && SignupRefusal(name, email, password).None?
              && !Registered(old(db.users), email.s)
              && hash(password.s) != ""
              && UserRowValid(User(old(db.nextId), name.s, email.s, hash(password.s), joiningTime))
              && isEmail(email.s)
    ensures r.Done? ==>
              && r.code == 201
              && exists id | id !in old(db.users) ::
                   db.users == old(db.users)[id := User(id, name.s, email.s, hash(password.s), joiningTime)]
    ensures r.Refused? ==> db.users == old(db.users) && db.nextId == old(db.nextId)
    ensures r.Refused? && r.code != 400 ==> r == Refused(500, InternalError)
    ensures SignupRefusal(name, email, password).None? && !Registered(old(db.users), email.s) && !r.Done? ==>
              r == Refused(500, InternalError)
  {
    var refusal := SignupRefusal(name, email, password);
    if refusal.Some? {
      return Refused(400, refusal.value);
    }
    var existing := db.FindUserByEmail(email.s);
    if existing.Some? {
      return Refused(400, EmailTaken);
    }
    var hashed := hash(password.s);
    if hashed == "" {
      return Refused(500, InternalError);
    }
    var created := db.CreateUser(name.s, email.s, hashed, joiningTime, isEmail);
    if created.None? {
      return Refused(500, InternalError);
    }
    r := Done(201, ());
  }

  /** What a successful login answers with: the access token and the user. */
  datatype Session = Session(token: string, user: User)

  /** login: an email without a password gets code 200 with `status: false`;
      a missing email gets 400; then the email must be registered (400) and
      the password must match the stored hash (400); success returns a
      token minted for the user's id. A present email that is not a string
      makes the lookup fail and a present password that is not a string
      makes bcrypt.compare throw; both end in 500. Login changes nothing. */
  method Login(db: Store, email: JsValue, password: JsValue,
               compare: (string, string) -> bool, mint: Id -> string)
    returns (r: Reply<Session>)
    requires db.Valid()
    ensures Truthy(email) && !Truthy(password) ==> r == Refused(200, MissingPassword)
    ensures !Truthy(email) ==> r == Refused(400, MissingFields)
    ensures Truthy(email) && Truthy(password) && !email.Str? ==> r == Refused(500, InternalError)
    ensures Truthy(email) && Truthy(password) && email.Str? && !Registered(db.users, email.s) ==>
              r == Refused(400, UnknownEmail)
    ensures (&& Truthy(email) && Truthy(password) && email.Str? && Registered(db.users, email.s)
             && !password.Str?) ==>
              r == Refused(500, InternalError)
    ensures (&& Truthy(email) && email.Str? && Registered(db.users, email.s)
             && password.Str? && password.s != ""
             && !(exists id | id in db.users && db.users[id].email == email.s ::
                    compare(password.s, db.users[id].password))) ==>
              r == Refused(400, WrongPassword)
    ensures r.Done? <==>
              && Truthy(email) && email.Str? && Registered(db.users, email.s)
              && password.Str? && password.s != ""
              && exists id | id in db.users && db.users[id].email == email.s ::
                   compare(password.s, db.users[id].password)
    ensures r.Done? ==>
              && r.code == 200
              && r.value.user in db.users.Values && r.value.user.email == email.s
              && r.value.token == mint(r.value.user.id)
              && compare(password.s, r.value.user.password)
  {
    if Truthy(email) && !Truthy(password) {
      return Refused(200, MissingPassword);
    }
    if !Truthy(email) || !Truthy(password) {
      return Refused(400, MissingFields);
    }
    if !email.Str? {
      return Refused(500, InternalError);
    }
    var found := db.FindUserByEmail(email.s);
    if found.None? {
      return Refused(400, UnknownEmail);
    }
    var user := found.value;
    OnlyUserWithEmail(db, user);
    if !password.Str? {
      return Refused(500, InternalError);
    }
    if !compare(password.s, user.password) {
      return Refused(400, WrongPassword);
    }
    r := Done(200, Session(mint(user.id), user));
  }

  /** Emails are unique, so the user found by email is the only one. */
  lemma OnlyUserWithEmail(db: Store, u: User)
    requires db.Valid() && u in db.users.Values
    ensures forall id | id in db.users && db.users[id].email == u.email :: db.users[id] == u
  {
    var k :| k in db.users && db.users[k] == u;
  }
}
