/** The user document of model/user.js: its schema constraints, the pre-save
    default for `username`, and the instance methods that overwrite the
    document's own fields (`generatePasswordHash`, `generateFindHash`,
    `generateToken`) or read them (`comparePasswordHash`). The collection is
    a sequence of documents in natural order; bcrypt, random bytes, JWT
    signing and database faults are parameters. */
module UserModel {
  import opened Common
  import opened Http
  import Encoding

  const MsgPasswordMismatch := "Does not match password on file"

  /** The retry threshold: an attempt whose counter exceeds it gives up. */
  const RetryLimit := 3
  /** Saves made when every attempt fails: attempts 0, 1, 2, 3 retry and
      attempt 4 gives up. */
  const MaxSaves := RetryLimit + 2

  /** `crypto.randomBytes(32)` */
  type Bytes32 = bs: seq<Encoding.Byte> | |bs| == 32 witness seq(32, _ => 0)

  /** The persisted fields of a user (model/user.js:13-18) with its `_id`. */
  datatype UserDoc = UserDoc(
    id: ObjectId,
    username: Option<string>,
    password: Option<string>,
    email: Option<string>,
    findHash: Option<string>)

  /** The payload `generateToken` signs. */
  datatype TokenPayload = TokenPayload(token: string)

  /** `new User(fields)`: the schema paths present in the fields are kept,
      everything else is dropped. */
  function FromFields(id: ObjectId, fields: map<string, string>): (d: UserDoc)
    ensures d.id == id && d.username == Get(fields, "username") && d.password == Get(fields, "password")
    ensures d.email == Get(fields, "email") && d.findHash == Get(fields, "findHash")
    ensures MissingRequired(d) == {} <==> Truthy(Get(fields, "password")) && Truthy(Get(fields, "email"))
  {
    UserDoc(id, Get(fields, "username"), Get(fields, "password"), Get(fields, "email"), Get(fields, "findHash"))
  }

  // ---------------------------------------------------------------------------
  // Schema constraints

  /** The paths whose `required` validator fails: a missing or empty string. */
  function MissingRequired(d: UserDoc): (paths: set<string>)
    ensures paths == {} <==> Truthy(d.password) && Truthy(d.email)
  {
    (if Truthy(d.password) then {} else {"password"}) + (if Truthy(d.email) then {} else {"email"})
  }

  /** The pre('save') hook: a falsy username becomes the email. Only the
      username can change, a username that is set is kept, and afterwards
      the username is set exactly when it was or the email is. */
  function WithDefaultUsername(d: UserDoc): (d': UserDoc)
    ensures d'.(username := d.username) == d
    ensures Truthy(d.username) ==> d'.username == d.username
    ensures !Truthy(d.username) ==> d'.username == d.email
    ensures Truthy(d'.username) <==> Truthy(d.username) || Truthy(d.email)
  {
    if Truthy(d.username) then d else d.(username := d.email)
  }

  /** Running the hook twice changes nothing more, and after it the username
      is present whenever the email is. */
  lemma DefaultUsernameIdempotent(d: UserDoc)
    ensures WithDefaultUsername(WithDefaultUsername(d)) == WithDefaultUsername(d)
    ensures Truthy(d.email) ==> Truthy(WithDefaultUsername(d).username)
  {
  }

  /** Two documents collide on one of the unique indexes. As in MongoDB's
      non-sparse unique indexes, two absent values collide too. */
  predicate Clash(a: UserDoc, b: UserDoc) {
    a.username == b.username || a.email == b.email || a.findHash == b.findHash
  }

  /** The collection respects `_id` and the three unique indexes. */
  predicate UniqueIndexes(store: seq<UserDoc>) {
    forall i, j :: 0 <= i < j < |store| ==> store[i].id != store[j].id && !Clash(store[i], store[j])
  }

  /** Writing `d` would break a unique index held by another document. */
  predicate ClashesWithOther(store: seq<UserDoc>, d: UserDoc) {
    exists i :: 0 <= i < |store| && store[i].id != d.id && Clash(store[i], d)
  }

  // ---------------------------------------------------------------------------
  // The collection

  /** The position of the document with a given `_id`, if any. */
  function IndexOf(store: seq<UserDoc>, id: ObjectId): (r: Option<nat>)
    ensures r.Some? ==> r.value < |store| && store[r.value].id == id
    ensures r.None? ==> forall k :: 0 <= k < |store| ==> store[k].id != id
    decreases |store|
  {
    if store == [] then None
    else if store[0].id == id then Some(0)
    else
      match IndexOf(store[1..], id)
      case None => None
      case Some(k) => Some(k + 1)
  }

  /** Overwriting the document at `i` with one of the same `_id` keeps
      every document with another `_id`. */
  lemma UpdateKeepsOthers(store: seq<UserDoc>, i: nat, d: UserDoc)
    requires i < |store| && store[i].id == d.id
    ensures d in store[i := d]
    ensures forall x :: x in store && x.id != d.id ==> x in store[i := d]
    ensures forall x :: x in store[i := d] ==> x in store || x == d
  {
    assert store[i := d][i] == d;
    forall x | x in store && x.id != d.id
      ensures x in store[i := d]
    {
      var j :| 0 <= j < |store| && store[j] == x;
      assert store[i := d][j] == x;
    }
  }

  /** `save()` on a document: an update in place when its `_id` is stored,
      an insert at the end otherwise. The document is then stored, every
      document with another `_id` stays, and nothing else appears. */
  function Upsert(store: seq<UserDoc>, d: UserDoc): (r: seq<UserDoc>)
    ensures d in r
    ensures forall x :: x in store && x.id != d.id ==> x in r
    ensures forall x :: x in r ==> x in store || x == d
    ensures |store| <= |r| <= |store| + 1
  {
    match IndexOf(store, d.id)
    case Some(i) =>
      UpdateKeepsOthers(store, i, d);
      store[i := d]
    case None => store + [d]
  }

  /** Writing a document that collides with no other keeps every unique
      index intact, and the document is then stored. */
  lemma UpsertKeepsUnique(store: seq<UserDoc>, d: UserDoc)
    requires UniqueIndexes(store) && !ClashesWithOther(store, d)
    ensures UniqueIndexes(Upsert(store, d))
    ensures d in Upsert(store, d)
  {
    var s' := Upsert(store, d);
    match IndexOf(store, d.id)
    case Some(i) =>
      assert s'[i] == d;
      forall a, b | 0 <= a < b < |s'|
        ensures s'[a].id != s'[b].id && !Clash(s'[a], s'[b])
      {
        if a == i {
          assert store[b].id != d.id;
          assert !Clash(store[b], d);
        } else if b == i {
          assert store[a].id != d.id;
          assert !Clash(store[a], d);
        }
      }
    case None =>
      assert s'[|store|] == d;
      forall a, b | 0 <= a < b < |s'|
        ensures s'[a].id != s'[b].id && !Clash(s'[a], s'[b])
      {
        if b == |store| {
          assert !Clash(store[a], d);
        }
      }
  }

  /** What one `save()` leaves: the collection, the document as the hooks
      left it, and the error it rejected with, if any. */
  datatype Saved = Saved(store: seq<UserDoc>, doc: UserDoc, err: Option<Error>)

  /** `save()`: validation, then the pre-save hook, then the write, which a
      database fault or a unique-index violation can reject. */
  function SaveOutcome(store: seq<UserDoc>, doc: UserDoc, fault: Option<Error>): (s: Saved)
    ensures UniqueIndexes(store) ==> UniqueIndexes(s.store)
    ensures s.err.None? <==>
              MissingRequired(doc) == {} && fault.None? && !ClashesWithOther(store, WithDefaultUsername(doc))
    ensures s.err.None? ==> s.doc in s.store && Truthy(s.doc.username)
    ensures s.err.Some? ==> s.store == store
    ensures s.doc == if MissingRequired(doc) == {} then WithDefaultUsername(doc) else doc
  {
    var missing := MissingRequired(doc);
    if missing != {} then Saved(store, doc, Some(Validation(missing)))
    else
      var d := WithDefaultUsername(doc);
      if fault.Some? then Saved(store, d, fault)
      else if ClashesWithOther(store, d) then Saved(store, d, Some(DuplicateKey))
      else
        assert d in Upsert(store, d) by {
          if IndexOf(store, d.id).Some? {
            assert Upsert(store, d)[IndexOf(store, d.id).value] == d;
          } else {
            assert Upsert(store, d)[|store|] == d;
          }
        }
        assert UniqueIndexes(store) ==> UniqueIndexes(Upsert(store, d)) by {
          if UniqueIndexes(store) { UpsertKeepsUnique(store, d); }
        }
        Saved(Upsert(store, d), d, None)
  }

  /** `User.findOne({ username: name })`: the first document in natural
      order whose username is `name`. */
  function FindByUsername(store: seq<UserDoc>, name: string): (r: Option<UserDoc>)
    ensures r.Some? ==> r.value in store && r.value.username == Some(name)
    ensures r.None? <==> forall i :: 0 <= i < |store| ==> store[i].username != Some(name)
    ensures r.Some? ==> exists i :: 0 <= i < |store| && store[i] == r.value &&
                           forall k :: 0 <= k < i ==> store[k].username != Some(name)
    decreases |store|
  {
    if store == [] then None
    else if store[0].username == Some(name) then Some(store[0])
    else
      var r := FindByUsername(store[1..], name);
      assert r.Some? ==> exists i :: 0 <= i < |store| && store[i] == r.value &&
                           forall k :: 0 <= k < i ==> store[k].username != Some(name) by {
        if r.Some? {
          var i :| 0 <= i < |store| - 1 && store[1..][i] == r.value &&
                   forall k :: 0 <= k < i ==> store[1..][k].username != Some(name);
          assert store[i + 1] == r.value;
          forall k | 0 <= k < i + 1
            ensures store[k].username != Some(name)
          {
            if k > 0 { assert store[k] == store[1..][k - 1]; }
          }
        }
      }
      r
  }

  /** Under the unique username index a lookup finds the one document with
      that username. */
  lemma FindByUsernameUnique(store: seq<UserDoc>, i: nat)
    requires UniqueIndexes(store) && i < |store| && store[i].username.Some?
    ensures FindByUsername(store, store[i].username.value) == Some(store[i])
  {
    var name := store[i].username.value;
    var r := FindByUsername(store, name);
    var j :| 0 <= j < |store| && store[j] == r.value &&
             forall k :: 0 <= k < j ==> store[k].username != Some(name);
    if j < i {
      assert Clash(store[j], store[i]);
    } else if i < j {
      assert false;
    }
  }

  /** `comparePasswordHash(pw)`, the one method that only reads the
      document: it resolves (with the same user) only when the comparison
      says the password matches; a mismatch rejects with 401 and a
      comparison error is passed on unchanged. */
  function ComparePasswordHash(doc: UserDoc, pw: string,
                               compare: (string, Option<string>) -> Result<bool, Error>): (r: Option<Error>)
    ensures r.None? <==> compare(pw, doc.password) == Success(true)
    ensures compare(pw, doc.password).Failure? ==> r == Some(compare(pw, doc.password).error)
    ensures compare(pw, doc.password) == Success(false) ==> r == Some(Http(401, MsgPasswordMismatch))
  {
    match compare(pw, doc.password)
    case Failure(e) => Some(e)
    case Success(valid) => if valid then None else Some(Http(401, MsgPasswordMismatch))
  }

  // ---------------------------------------------------------------------------
  // generateFindHash: the retry loop, as a specification

  /** The result of `generateFindHash`: the find-hash it resolved with or the
      error it rejected with, the number of saves made, the document and the
      collection afterwards. */
  datatype Run = Run(result: Result<string, Error>, saves: nat, doc: UserDoc, store: seq<UserDoc>)

  /** The attempts from `attempts` on: each writes a fresh 64-hex-character
      find-hash, saves, and retries on any save error while `attempts <= 3`.
      `random(k)` and `faults(k)` are what attempt `k` draws and meets. */
  function FindHashFrom(attempts: nat, store: seq<UserDoc>, doc: UserDoc,
                        random: nat -> Bytes32, faults: nat -> Option<Error>): Run
    requires attempts <= RetryLimit + 1
    decreases RetryLimit + 1 - attempts
  {
    var candidate := doc.(findHash := Some(Encoding.Hex(random(attempts))));
    var s := SaveOutcome(store, candidate, faults(attempts));
    if s.err.None? then Run(Success(candidate.findHash.value), attempts + 1, s.doc, s.store)
    else if attempts > RetryLimit then Run(Failure(s.err.value), attempts + 1, s.doc, s.store)
    else FindHashFrom(attempts + 1, s.store, s.doc, random, faults)
  }

  /** A save meets the same error for two documents that, given the same
      find-hash, are equally valid and equal once the pre-save hook has
      run. */
  lemma SameSaveError(store: seq<UserDoc>, a: UserDoc, b: UserDoc, hash: string, fault: Option<Error>)
    requires MissingRequired(a) == MissingRequired(b)
    requires MissingRequired(a) == {} ==>
               WithDefaultUsername(a).(findHash := None) == WithDefaultUsername(b).(findHash := None)
    ensures SaveOutcome(store, a.(findHash := Some(hash)), fault).err ==
            SaveOutcome(store, b.(findHash := Some(hash)), fault).err
  {
    if MissingRequired(a) == {} {
      assert WithDefaultUsername(a.(findHash := Some(hash))) ==
             WithDefaultUsername(a).(findHash := None).(findHash := Some(hash));
      assert WithDefaultUsername(b.(findHash := Some(hash))) ==
             WithDefaultUsername(b).(findHash := None).(findHash := Some(hash));
    }
  }

  /** The loop ends after at most five saves and gives up only after
      exactly five, leaving the collection as it found it; it never changes
      the id, password or email, nor a username that was already set. */
  lemma {:induction false} FindHashRun(attempts: nat, store: seq<UserDoc>, doc: UserDoc,
                                       random: nat -> Bytes32, faults: nat -> Option<Error>)
    requires attempts <= RetryLimit + 1
    ensures var run := FindHashFrom(attempts, store, doc, random, faults);
      && attempts + 1 <= run.saves <= MaxSaves
      && (run.result.Failure? ==> run.saves == MaxSaves && run.store == store)
      && run.doc.id == doc.id && run.doc.password == doc.password && run.doc.email == doc.email
      && (Truthy(doc.username) ==> run.doc.username == doc.username)
    decreases RetryLimit + 1 - attempts
  {
    var candidate := doc.(findHash := Some(Encoding.Hex(random(attempts))));
    var s := SaveOutcome(store, candidate, faults(attempts));
    if s.err.Some? && attempts <= RetryLimit {
      FindHashRun(attempts + 1, s.store, s.doc, random, faults);
    }
  }

  /** When the loop gives up, it rejects with the error of its last save:
      the error the same document, carrying the last attempt's find-hash,
      meets in the collection the loop started from. */
  lemma {:induction false} FindHashLastError(attempts: nat, store: seq<UserDoc>, doc: UserDoc,
                                             random: nat -> Bytes32, faults: nat -> Option<Error>)
    requires attempts <= RetryLimit + 1
    ensures var run := FindHashFrom(attempts, store, doc, random, faults);
      run.result.Failure? ==>
        Some(run.result.error) ==
        SaveOutcome(store, doc.(findHash := Some(Encoding.Hex(random(RetryLimit + 1)))),
                    faults(RetryLimit + 1)).err
    decreases RetryLimit + 1 - attempts
  {
    var candidate := doc.(findHash := Some(Encoding.Hex(random(attempts))));
    var s := SaveOutcome(store, candidate, faults(attempts));
    if s.err.Some? && attempts <= RetryLimit {
      FindHashLastError(attempts + 1, s.store, s.doc, random, faults);
      if MissingRequired(doc) == {} {
        assert WithDefaultUsername(s.doc) == WithDefaultUsername(candidate);
        assert WithDefaultUsername(candidate).(findHash := None) == WithDefaultUsername(doc).(findHash := None);
      }
      SameSaveError(store, s.doc, doc, Encoding.Hex(random(RetryLimit + 1)), faults(RetryLimit + 1));
    }
  }

  /** Every document the loop adds to the collection carries the id and
      the password of the document it started from. */
  lemma {:induction false} FindHashAddsOnlyDoc(attempts: nat, store: seq<UserDoc>, doc: UserDoc,
                                               random: nat -> Bytes32, faults: nat -> Option<Error>)
    requires attempts <= RetryLimit + 1
    ensures var run := FindHashFrom(attempts, store, doc, random, faults);
      forall e :: e in run.store && e !in store ==> e.id == doc.id && e.password == doc.password
    decreases RetryLimit + 1 - attempts
  {
    var candidate := doc.(findHash := Some(Encoding.Hex(random(attempts))));
    var s := SaveOutcome(store, candidate, faults(attempts));
    if s.err.Some? && attempts <= RetryLimit {
      FindHashAddsOnlyDoc(attempts + 1, s.store, s.doc, random, faults);
    } else if s.err.None? {
      assert s.store == Upsert(store, WithDefaultUsername(candidate));
    }
  }

  /** On success the document's find-hash is the value the loop resolves
      with. */
  lemma {:induction false} FindHashSuccess(attempts: nat, store: seq<UserDoc>, doc: UserDoc,
                                           random: nat -> Bytes32, faults: nat -> Option<Error>)
    requires attempts <= RetryLimit + 1
    requires FindHashFrom(attempts, store, doc, random, faults).result.Success?
    ensures var run := FindHashFrom(attempts, store, doc, random, faults);
      run.doc.findHash == Some(run.result.value)
    decreases RetryLimit + 1 - attempts
  {
    var candidate := doc.(findHash := Some(Encoding.Hex(random(attempts))));
    var s := SaveOutcome(store, candidate, faults(attempts));
    if s.err.Some? {
      FindHashSuccess(attempts + 1, s.store, s.doc, random, faults);
    } else {
      assert s.doc == WithDefaultUsername(candidate);
    }
  }

  /** On success the loop resolves to the hex text of the bytes its last
      attempt drew, 64 characters long. */
  lemma {:induction false} FindHashDrawn(attempts: nat, store: seq<UserDoc>, doc: UserDoc,
                                         random: nat -> Bytes32, faults: nat -> Option<Error>)
    requires attempts <= RetryLimit + 1
    requires FindHashFrom(attempts, store, doc, random, faults).result.Success?
    ensures var run := FindHashFrom(attempts, store, doc, random, faults);
      && run.saves >= 1
      && run.result.value == Encoding.Hex(random(run.saves - 1))
      && |run.result.value| == 64
    decreases RetryLimit + 1 - attempts
  {
    var run := FindHashFrom(attempts, store, doc, random, faults);
    var value := Encoding.Hex(random(attempts));
    var s := SaveOutcome(store, doc.(findHash := Some(value)), faults(attempts));
    if s.err.None? {
      assert run == Run(Success(value), attempts + 1, s.doc, s.store);
    } else {
      assert attempts <= RetryLimit;
      assert run == FindHashFrom(attempts + 1, s.store, s.doc, random, faults);
      FindHashDrawn(attempts + 1, s.store, s.doc, random, faults);
    }
  }

  /** On success the document as the loop leaves it is in the collection. */
  lemma {:induction false} FindHashStored(attempts: nat, store: seq<UserDoc>, doc: UserDoc,
                                          random: nat -> Bytes32, faults: nat -> Option<Error>)
    requires attempts <= RetryLimit + 1
    requires FindHashFrom(attempts, store, doc, random, faults).result.Success?
    ensures FindHashFrom(attempts, store, doc, random, faults).doc in FindHashFrom(attempts, store, doc, random, faults).store
    decreases RetryLimit + 1 - attempts
  {
    var candidate := doc.(findHash := Some(Encoding.Hex(random(attempts))));
    var s := SaveOutcome(store, candidate, faults(attempts));
    if s.err.Some? {
      FindHashStored(attempts + 1, s.store, s.doc, random, faults);
    }
  }

  /** Every save of the loop respects the unique indexes, so the loop as a
      whole keeps them intact. */
  lemma {:induction false} FindHashKeepsUnique(attempts: nat, store: seq<UserDoc>, doc: UserDoc,
                                               random: nat -> Bytes32, faults: nat -> Option<Error>)
    requires attempts <= RetryLimit + 1
    requires UniqueIndexes(store)
    ensures UniqueIndexes(FindHashFrom(attempts, store, doc, random, faults).store)
    decreases RetryLimit + 1 - attempts
  {
    var candidate := doc.(findHash := Some(Encoding.Hex(random(attempts))));
    var s := SaveOutcome(store, candidate, faults(attempts));
    if s.err.Some? && attempts <= RetryLimit {
      FindHashKeepsUnique(attempts + 1, s.store, s.doc, random, faults);
    }
  }

  /** When every save fails with a database fault, the loop makes exactly
      five saves and rejects with the fault of the last one, leaving the
      collection as it was. */
  lemma {:induction false} FindHashAlwaysFailing(attempts: nat, store: seq<UserDoc>, doc: UserDoc,
                                                 random: nat -> Bytes32, faults: nat -> Option<Error>)
    requires attempts <= RetryLimit + 1
    requires MissingRequired(doc) == {}
    requires forall k :: attempts <= k <= RetryLimit + 1 ==> faults(k).Some?
    ensures FindHashFrom(attempts, store, doc, random, faults).result == Failure(faults(RetryLimit + 1).value)
    ensures FindHashFrom(attempts, store, doc, random, faults).saves == MaxSaves
    ensures FindHashFrom(attempts, store, doc, random, faults).store == store
    decreases RetryLimit + 1 - attempts
  {
    var candidate := doc.(findHash := Some(Encoding.Hex(random(attempts))));
    var s := SaveOutcome(store, candidate, faults(attempts));
    assert MissingRequired(candidate) == {};
    if attempts <= RetryLimit {
      assert MissingRequired(s.doc) == {};
      FindHashAlwaysFailing(attempts + 1, s.store, s.doc, random, faults);
    }
  }

  // ---------------------------------------------------------------------------
  // The documents and the collection as objects

  /** The `users` collection. */
  class UserStore {
    var records: seq<UserDoc>

    constructor ()
      ensures records == []
    {
      records := [];
    }
  }

  /** A user document in memory; its methods overwrite its own fields. */
  class User {
    const id: ObjectId
    var username: Option<string>
    var password: Option<string>
    var email: Option<string>
    var findHash: Option<string>

    function Doc(): UserDoc
      reads this
    {
      UserDoc(id, username, password, email, findHash)
    }

    /** `new User(fields)` with a fresh `_id`. */
    constructor (id: ObjectId, fields: map<string, string>)
      ensures Doc() == FromFields(id, fields)
    {
      this.id := id;
      username := Get(fields, "username");
      password := Get(fields, "password");
      email := Get(fields, "email");
      findHash := Get(fields, "findHash");
    }

    /** A document as a query returns it. */
    constructor Load(doc: UserDoc)
      ensures Doc() == doc
    {
      id := doc.id;
      username := doc.username;
      password := doc.password;
      email := doc.email;
      findHash := doc.findHash;
    }

    /** `this.save()`; `fault` is the database error the write meets, if any. */
    method Save(db: UserStore, fault: Option<Error>) returns (err: Option<Error>)
      modifies this, db
      ensures var s := SaveOutcome(old(db.records), old(Doc()), fault);
              Doc() == s.doc && db.records == s.store && err == s.err
    {
      var missing := MissingRequired(Doc());
      if missing != {} {
        return Some(Validation(missing));
      }
      if !Truthy(username) {
        username := email;
      }
      if fault.Some? {
        return fault;
      }
      if ClashesWithOther(db.records, Doc()) {
        return Some(DuplicateKey);
      }
      db.records := Upsert(db.records, Doc());
      return None;
    }

    /** `generatePasswordHash(pw)`: on success the password field holds the
        hash and nothing else changes; on a hashing error nothing changes. */
    method GeneratePasswordHash(pw: string, hash: string -> Result<string, Error>) returns (err: Option<Error>)
      modifies this
      ensures hash(pw).Success? ==> err == None && Doc() == old(Doc()).(password := Some(hash(pw).value))
      ensures hash(pw).Failure? ==> err == Some(hash(pw).error) && Doc() == old(Doc())
    {
      var h := hash(pw);
      if h.Failure? {
        return Some(h.error);
      }
      password := Some(h.value);
      return None;
    }

    /** One attempt of `generateFindHash`: write the find-hash, then save. */
    method SaveWithFindHash(db: UserStore, value: string, fault: Option<Error>) returns (err: Option<Error>)
      modifies this, db
      ensures var s := SaveOutcome(old(db.records), old(Doc()).(findHash := Some(value)), fault);
              Doc() == s.doc && db.records == s.store && err == s.err
    {
      findHash := Some(value);
      err := Save(db, fault);
    }

    /** `generateFindHash()`: the retry loop with its `attempts` counter. */
    method GenerateFindHash(db: UserStore, random: nat -> Bytes32, faults: nat -> Option<Error>)
      returns (r: Result<string, Error>, saves: nat)
      modifies this, db
      ensures var run := FindHashFrom(0, old(db.records), old(Doc()), random, faults);
              r == run.result && saves == run.saves && Doc() == run.doc && db.records == run.store
    {
      var attempts := 0;
      while true
        invariant 0 <= attempts <= RetryLimit + 1
        invariant FindHashFrom(attempts, db.records, Doc(), random, faults) ==
                  FindHashFrom(0, old(db.records), old(Doc()), random, faults)
        decreases RetryLimit + 1 - attempts
      {
        ghost var doc, store := Doc(), db.records;
        var value := Encoding.Hex(random(attempts));
        var err := SaveWithFindHash(db, value, faults(attempts));
        ghost var run := FindHashFrom(attempts, store, doc, random, faults);
        if err.None? {
          assert run == Run(Success(value), attempts + 1, Doc(), db.records);
          return Success(value), attempts + 1;
        }
        if attempts > RetryLimit {
          assert run == Run(Failure(err.value), attempts + 1, Doc(), db.records);
          return Failure(err.value), attempts + 1;
        }
        assert run == FindHashFrom(attempts + 1, db.records, Doc(), random, faults);
        attempts := attempts + 1;
      }
    }

    /** `generateToken()`: signs `{token: findHash}` with the find-hash just
        generated, or rejects with the error `generateFindHash` gave. */
    method GenerateToken(db: UserStore, random: nat -> Bytes32, faults: nat -> Option<Error>,
                         sign: TokenPayload -> string)
      returns (r: Result<string, Error>)
      modifies this, db
      ensures var run := FindHashFrom(0, old(db.records), old(Doc()), random, faults);
              && Doc() == run.doc && db.records == run.store
              && r == match run.result
                      case Success(h) => Success(sign(TokenPayload(h)))
                      case Failure(e) => Failure(e)
    {
      var found, _ := GenerateFindHash(db, random, faults);
      match found
      case Success(h) => r := Success(sign(TokenPayload(h)));
      case Failure(e) => r := Failure(e);
    }
  }
}
