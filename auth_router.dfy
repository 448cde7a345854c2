/** The two handlers of route/auth-router.js. `POST /api/register` validates
    the body, strips the plaintext password, and runs hash, save and token in
    turn. `GET /api/login` runs the basic-auth middleware, looks the user up
    by username, compares the password and issues a token. Each handler is a
    method over the request and the users collection, specified by a pure
    function of the request and the collection. */
module AuthRouter {
  import opened Common
  import opened Http
  import opened UserModel
  import BasicAuth
  import Encoding

  const MsgBadRequest := "Bad Request"
  const MsgInvalidCredentials := "Invalid Credentials"

  /** What a handler sent or passed to `next`, with the users collection it
      left behind. */
  datatype Handled = Handled(response: Response<string>, store: seq<UserDoc>)

  /** The token promise settled into a response: `res.send(token)` or
      `.catch(next)`. */
  function TokenResponse(token: Result<string, Error>): (r: Response<string>)
    ensures r.Sent? <==> token.Success?
    ensures token.Success? ==> r == Sent(200, token.value)
    ensures token.Failure? ==> r == Next(token.error)
  {
    match token
    case Success(t) => Sent(200, t)
    case Failure(e) => Next(e)
  }

  // ---------------------------------------------------------------------------
  // POST /api/register

  /** The two guards of the register handler: a falsy password, then a falsy
      email, each passed on as 400 "Bad Request". */
  function RegisterValidation(body: map<string, string>): (r: Option<Error>)
    ensures r.None? <==> Truthy(Get(body, "password")) && Truthy(Get(body, "email"))
    ensures r.Some? ==> r.value == Http(400, MsgBadRequest)
  {
    if !Truthy(Get(body, "password")) then Some(Http(400, MsgBadRequest))
    else if !Truthy(Get(body, "email")) then Some(Http(400, MsgBadRequest))
    else None
  }

  /** The register handler as a function of the body and the collection.
      `newId` is the ObjectId the new document receives, `hash` is bcrypt,
      `saveFault` what the first save meets, and `random` and `faults` what
      the find-hash attempts draw and meet. */
  function RegisterSpec(body: map<string, string>, store: seq<UserDoc>, newId: ObjectId,
                        hash: string -> Result<string, Error>, saveFault: Option<Error>,
                        random: nat -> Bytes32, faults: nat -> Option<Error>,
                        sign: TokenPayload -> string): (h: Handled)
    ensures RegisterValidation(body).Some? ==> h == Handled(Next(Http(400, MsgBadRequest)), store)
    ensures h.response.Sent? ==> h.response.status == 200
  {
    if RegisterValidation(body).Some? then Handled(Next(RegisterValidation(body).value), store)
    else
      var doc := FromFields(newId, body - {"password"});
      match hash(body["password"])
      case Failure(e) => Handled(Next(e), store)
      case Success(hashed) =>
        var s := SaveOutcome(store, doc.(password := Some(hashed)), saveFault);
        if s.err.Some? then Handled(Next(s.err.value), s.store)
        else
          var run := FindHashFrom(0, s.store, s.doc, random, faults);
          Handled(TokenResponse(match run.result
                                case Success(f) => Success(sign(TokenPayload(f)))
                                case Failure(e) => Failure(e)), run.store)
  }

  /** The register handler: it deletes `password` from the body before the
      user is built from it, so only the hash is ever written. */
  method Register(req: Request, db: UserStore, newId: ObjectId,
                  hash: string -> Result<string, Error>, saveFault: Option<Error>,
                  random: nat -> Bytes32, faults: nat -> Option<Error>,
                  sign: TokenPayload -> string)
    returns (resp: Response<string>)
    modifies req, db
    ensures var h := RegisterSpec(old(req.body), old(db.records), newId, hash, saveFault, random, faults, sign);
            resp == h.response && db.records == h.store
    ensures req.body == if RegisterValidation(old(req.body)).None? then old(req.body) - {"password"} else old(req.body)
    ensures req.authorization == old(req.authorization) && req.auth == old(req.auth)
  {
    var invalid := RegisterValidation(req.body);
    if invalid.Some? {
      return Next(invalid.value);
    }
    var password := req.body["password"];
    req.body := req.body - {"password"};
    var user := new User(newId, req.body);
    var err := user.GeneratePasswordHash(password, hash);
    if err.Some? {
      return Next(err.value);
    }
    err := user.Save(db, saveFault);
    if err.Some? {
      return Next(err.value);
    }
    var token := user.GenerateToken(db, random, faults, sign);
    return TokenResponse(token);
  }

  /** A successful registration stores one document under the new id whose
      password is the hash of the submitted password (never the plaintext),
      whose email is the submitted one and whose username is the submitted
      one or, when that is falsy, the email; the response is the token
      signed over that document's stored find-hash. */
  lemma RegisterSucceeds(body: map<string, string>, store: seq<UserDoc>, newId: ObjectId,
                         hash: string -> Result<string, Error>, saveFault: Option<Error>,
                         random: nat -> Bytes32, faults: nat -> Option<Error>,
                         sign: TokenPayload -> string)
    requires RegisterSpec(body, store, newId, hash, saveFault, random, faults, sign).response.Sent?
    ensures "password" in body && hash(body["password"]).Success?
    ensures var h := RegisterSpec(body, store, newId, hash, saveFault, random, faults, sign);
      exists d :: d in h.store
        && d.id == newId
        && d.password == Some(hash(body["password"]).value)
        && d.email == Get(body, "email")
        && d.username == (if Truthy(Get(body, "username")) then Get(body, "username") else Get(body, "email"))
        && d.findHash.Some?
        && h.response == Sent(200, sign(TokenPayload(d.findHash.value)))
  {
    var doc := FromFields(newId, body - {"password"});
    var s := SaveOutcome(store, doc.(password := Some(hash(body["password"]).value)), saveFault);
    FindHashRun(0, s.store, s.doc, random, faults);
    FindHashSuccess(0, s.store, s.doc, random, faults);
    FindHashStored(0, s.store, s.doc, random, faults);
    var run := FindHashFrom(0, s.store, s.doc, random, faults);
    assert run.doc in run.store;
  }

  /** Whatever the outcome, including a token failure after the user was
      saved, every document registration adds has the new id and, as its
      password, the hash of the submitted password, never the plaintext. */
  lemma RegisterStoresOnlyHash(body: map<string, string>, store: seq<UserDoc>, newId: ObjectId,
                               hash: string -> Result<string, Error>, saveFault: Option<Error>,
                               random: nat -> Bytes32, faults: nat -> Option<Error>,
                               sign: TokenPayload -> string)
    ensures var h := RegisterSpec(body, store, newId, hash, saveFault, random, faults, sign);
      forall d :: d in h.store && d !in store ==>
        && d.id == newId
        && "password" in body && hash(body["password"]).Success?
        && d.password == Some(hash(body["password"]).value)
  {
    if RegisterValidation(body).None? && hash(body["password"]).Success? {
      var doc := FromFields(newId, body - {"password"}).(password := Some(hash(body["password"]).value));
      var s := SaveOutcome(store, doc, saveFault);
      if s.err.None? {
        assert s.store == Upsert(store, s.doc);
        FindHashAddsOnlyDoc(0, s.store, s.doc, random, faults);
      }
    }
  }

  /** Registering keeps the unique indexes of the collection intact,
      whatever the collaborators do. */
  lemma RegisterKeepsUnique(body: map<string, string>, store: seq<UserDoc>, newId: ObjectId,
                            hash: string -> Result<string, Error>, saveFault: Option<Error>,
                            random: nat -> Bytes32, faults: nat -> Option<Error>,
                            sign: TokenPayload -> string)
    requires UniqueIndexes(store)
    ensures UniqueIndexes(RegisterSpec(body, store, newId, hash, saveFault, random, faults, sign).store)
  {
    if RegisterValidation(body).None? && hash(body["password"]).Success? {
      var doc := FromFields(newId, body - {"password"});
      var s := SaveOutcome(store, doc.(password := Some(hash(body["password"]).value)), saveFault);
      if s.err.None? {
        FindHashKeepsUnique(0, s.store, s.doc, random, faults);
      }
    }
  }

  /** Registering an email that another user already holds fails with the
      duplicate-key error and leaves the collection as it was. */
  lemma RegisterDuplicateEmail(body: map<string, string>, store: seq<UserDoc>, newId: ObjectId,
                               hash: string -> Result<string, Error>,
                               random: nat -> Bytes32, faults: nat -> Option<Error>,
                               sign: TokenPayload -> string, i: nat)
    requires RegisterValidation(body).None?
    requires hash(body["password"]).Success? && hash(body["password"]).value != []
    requires i < |store| && store[i].id != newId && store[i].email == Get(body, "email")
    ensures RegisterSpec(body, store, newId, hash, None, random, faults, sign) ==
              Handled(Next(DuplicateKey), store)
  {
    var doc := FromFields(newId, body - {"password"}).(password := Some(hash(body["password"]).value));
    assert doc.email == Get(body, "email");
    assert MissingRequired(doc) == {};
    var d := WithDefaultUsername(doc);
    assert store[i].id != d.id && Clash(store[i], d);
    assert ClashesWithOther(store, d);
  }

  // ---------------------------------------------------------------------------
  // GET /api/login

  /** The login handler as a function of the `Authorization` header and the
      collection: the middleware's rejection, then a lookup by username
      alone, then the password comparison, then the token. `lookupFault` is
      the error with which the lookup by username fails, if it does; both
      `findOne` calls are one read with one outcome here. */
  function LoginSpec(header: Option<string>, store: seq<UserDoc>, lookupFault: Option<Error>,
                     lenient: string -> string,
                     compare: (string, Option<string>) -> Result<bool, Error>,
                     random: nat -> Bytes32, faults: nat -> Option<Error>,
                     sign: TokenPayload -> string): (h: Handled)
    ensures h.response.Sent? ==> BasicAuth.Authenticate(header, lenient).signal.Proceed?
    ensures BasicAuth.Authenticate(header, lenient).signal.Reject? ==>
              h == Handled(Next(BasicAuth.Authenticate(header, lenient).signal.err), store)
    ensures BasicAuth.Authenticate(header, lenient).signal.Proceed? && lookupFault.Some? ==>
              h == Handled(Next(lookupFault.value), store)
    ensures h.store != store ==> lookupFault.None?
  {
    var a := BasicAuth.Authenticate(header, lenient);
    match a.signal
    case Reject(e) => Handled(Next(e), store)
    case Proceed =>
      if lookupFault.Some? then Handled(Next(lookupFault.value), store) else
      match FindByUsername(store, a.auth.value.username)
      case None => Handled(Next(Http(401, MsgInvalidCredentials)), store)
      case Some(doc) =>
        match ComparePasswordHash(doc, a.auth.value.password.value, compare)
        case Some(e) => Handled(Next(e), store)
        case None =>
          var run := FindHashFrom(0, store, doc, random, faults);
          Handled(TokenResponse(match run.result
                                case Success(f) => Success(sign(TokenPayload(f)))
                                case Failure(e) => Failure(e)), run.store)
  }

  /** The login handler: the middleware writes `req.auth`, the handler
      reads it back. */
  method Login(req: Request, db: UserStore, lookupFault: Option<Error>, lenient: string -> string,
               compare: (string, Option<string>) -> Result<bool, Error>,
               random: nat -> Bytes32, faults: nat -> Option<Error>,
               sign: TokenPayload -> string)
    returns (resp: Response<string>)
    modifies req, db
    ensures var h := LoginSpec(old(req.authorization), old(db.records), lookupFault, lenient, compare, random, faults, sign);
            resp == h.response && db.records == h.store
    ensures var a := BasicAuth.Authenticate(old(req.authorization), lenient);
            req.auth == (if a.auth.Some? then a.auth else old(req.auth))
    ensures req.authorization == old(req.authorization) && req.body == old(req.body)
  {
    var signal := BasicAuth.Middleware(req, lenient);
    if signal.Reject? {
      return Next(signal.err);
    }
    if lookupFault.Some? {
      return Next(lookupFault.value);
    }
    var found := FindByUsername(db.records, req.auth.value.username);
    if found.None? {
      return Next(Http(401, MsgInvalidCredentials));
    }
    var user := new User.Load(found.value);
    var err := ComparePasswordHash(user.Doc(), req.auth.value.password.value, compare);
    if err.Some? {
      return Next(err.value);
    }
    var token := user.GenerateToken(db, random, faults, sign);
    return TokenResponse(token);
  }

  /** Credentials that pass the middleware but whose username no document
      holds are refused with 401 "Invalid Credentials", even when a document
      holds that name as its email. */
  lemma LoginUnknownUser(header: Option<string>, store: seq<UserDoc>, lenient: string -> string,
                         compare: (string, Option<string>) -> Result<bool, Error>,
                         random: nat -> Bytes32, faults: nat -> Option<Error>,
                         sign: TokenPayload -> string)
    requires BasicAuth.Authenticate(header, lenient).signal.Proceed?
    requires forall i :: 0 <= i < |store| ==>
               store[i].username != Some(BasicAuth.Authenticate(header, lenient).auth.value.username)
    ensures LoginSpec(header, store, None, lenient, compare, random, faults, sign) ==
              Handled(Next(Http(401, MsgInvalidCredentials)), store)
  {
  }

  /** A stored user logging in with a password the comparison rejects gets
      401 "Does not match password on file", and nothing is written. */
  lemma LoginWrongPassword(header: Option<string>, store: seq<UserDoc>, i: nat, lenient: string -> string,
                           compare: (string, Option<string>) -> Result<bool, Error>,
                           random: nat -> Bytes32, faults: nat -> Option<Error>,
                           sign: TokenPayload -> string)
    requires UniqueIndexes(store) && i < |store|
    requires BasicAuth.Authenticate(header, lenient).signal.Proceed?
    requires store[i].username == Some(BasicAuth.Authenticate(header, lenient).auth.value.username)
    requires compare(BasicAuth.Authenticate(header, lenient).auth.value.password.value, store[i].password) == Success(false)
    ensures LoginSpec(header, store, None, lenient, compare, random, faults, sign) ==
              Handled(Next(Http(401, MsgPasswordMismatch)), store)
  {
    FindByUsernameUnique(store, i);
  }

  /** End to end: a client sending `"Basic " + base64(u + ":" + p)` for a
      stored user named `u` whose password the comparison accepts receives
      200 with the token signed over the find-hash now stored for that
      user. */
  lemma LoginSucceeds(u: string, p: string, store: seq<UserDoc>, i: nat, lenient: string -> string,
                      compare: (string, Option<string>) -> Result<bool, Error>,
                      random: nat -> Bytes32, faults: nat -> Option<Error>,
                      sign: TokenPayload -> string)
    requires u != [] && p != [] && BasicAuth.Colon !in u && BasicAuth.Colon !in p
    requires Encoding.IsAscii(u) && Encoding.IsAscii(p)
    requires UniqueIndexes(store) && i < |store| && store[i].username == Some(u)
    requires compare(p, store[i].password) == Success(true)
    requires FindHashFrom(0, store, store[i], random, faults).result.Success?
    ensures var h := LoginSpec(Some(BasicAuth.EncodedHeader([], u + [BasicAuth.Colon] + p)), store, None,
                               lenient, compare, random, faults, sign);
      exists d :: d in h.store && d.id == store[i].id && d.findHash.Some? &&
                  h.response == Sent(200, sign(TokenPayload(d.findHash.value)))
  {
    BasicAuth.CredentialsAscii(u, p);
    var header := BasicAuth.EncodedHeader([], u + [BasicAuth.Colon] + p);
    var accepted := BasicAuth.Outcome(Some(Credentials(u, Some(p))), Proceed);
    assert BasicAuth.Authenticate(Some(header), lenient) == accepted by {
      BasicAuth.RoundTripBare(u, p, lenient);
    }
    LoginAccepted(header, u, p, store, i, lenient, compare, random, faults, sign);
  }

  /** The handler's part of `LoginSucceeds`, for any header the middleware
      accepts as `u` and `p`. */
  lemma LoginAccepted(header: string, u: string, p: string, store: seq<UserDoc>, i: nat,
                      lenient: string -> string,
                      compare: (string, Option<string>) -> Result<bool, Error>,
                      random: nat -> Bytes32, faults: nat -> Option<Error>,
                      sign: TokenPayload -> string)
    requires BasicAuth.Authenticate(Some(header), lenient) == BasicAuth.Outcome(Some(Credentials(u, Some(p))), Proceed)
    requires UniqueIndexes(store) && i < |store| && store[i].username == Some(u)
    requires compare(p, store[i].password) == Success(true)
    requires FindHashFrom(0, store, store[i], random, faults).result.Success?
    ensures var h := LoginSpec(Some(header), store, None, lenient, compare, random, faults, sign);
      exists d :: d in h.store && d.id == store[i].id && d.findHash.Some? &&
                  h.response == Sent(200, sign(TokenPayload(d.findHash.value)))
  {
    FindByUsernameUnique(store, i);
    FindHashRun(0, store, store[i], random, faults);
    FindHashSuccess(0, store, store[i], random, faults);
    FindHashStored(0, store, store[i], random, faults);
    var run := FindHashFrom(0, store, store[i], random, faults);
    assert run.doc in run.store;
  }
}
