# Tableaux authentication and photo routes in Dafny

Tableaux is an Express/Mongoose photo-gallery API. This project models its
core and proves properties of the model:

- the basic-credential middleware, which turns an `Authorization: Basic …`
  header into `req.auth = {username, password}` or a 401;
- the user document, with its schema constraints, the pre-save username
  default and the methods that overwrite its fields. The methods are the
  password hash, the password comparison, the find-hash retry loop and the
  token;
- the register and login handlers;
- the photo and gallery schemas;
- the three photo handlers: upload, list and delete.

Layout, one module per file:

| file | module | models |
|---|---|---|
| `common.dfy` | `Common` | JavaScript `undefined` and truthiness of strings, results |
| `http.dfy` | `Http` | errors passed to `next`, responses, the request object |
| `text.dfy` | `Text` | `String.prototype.split` with a string separator and its inverse `join` |
| `encoding.dfy` | `Encoding` | base64 (section 4 of RFC 4648), lower-case hex, bytes read as text |
| `basic_auth.dfy` | `BasicAuth` | lib/basic-auth-middleware.js |
| `user_model.dfy` | `UserModel` | model/user.js; `User` and `UserStore` are classes whose methods update fields in place |
| `auth_router.dfy` | `AuthRouter` | route/auth-router.js |
| `photo_model.dfy` | `PhotoModel` | model/photo.js, plus `findById` / `findByIdAndRemove` |
| `gallery_model.dfy` | `GalleryModel` | model/gallery.js |
| `path_ext.dfy` | `PathExt` | Node's POSIX `path.extname`, used for the S3 object key |
| `photo_router.dfy` | `PhotoRouter` | route/photo-router.js |

Collections are sequences in natural (insertion) order. `findOne` returns
the first match, and the list handler looks at the last photo. The unique
indexes are MongoDB's non-sparse ones, so two documents that both lack a
value collide on it. Each stateful handler is a `method` that updates a
`Request`, a `UserStore` or a `Backend` object. The same method is specified
by a pure function of the inputs (`RegisterSpec`, `LoginSpec`, `PostSpec`,
`DeleteSpec`), and the lemmas are stated about that function. The
find-hash retry loop is a `while` loop over an `attempts` counter. It is
proved equal to the recursive function `FindHashFrom`, about which the
retry bound and the success properties are proved.

Collaborators the code calls but does not define are parameters:

- bcrypt `hash` and `compare`;
- `crypto.randomBytes(32)`, as `random(k)` for attempt `k`;
- the database error each save meets, as `saveFault` and `faults(k)`;
- `jwt.sign`, as `sign`;
- the S3 upload outcome (`upload(key)`), the S3 and removal faults, and
  the gallery lookup error;
- the error with which a read of the collection fails (`lookupFault`):
  `User.findOne` in login, `Photo.find` in the list handler and
  `Photo.findById` in the delete handler;
- the new document's ObjectId (`newId`) and `Date.now` (`now`);
- the requester's id, which the bearer middleware would attach.

Points where the code's behaviour is easy to misread, all modelled as the
code has them:

- `generateFindHash` saves at most 5 times (attempts 0 to 4,
  model/user.js:53-64), and it retries after any save error.
- The middleware takes as payload whatever lies between the first and any
  second occurrence of `"Basic "` (lib/basic-auth-middleware.js:14). The
  header need not start with it.
- DELETE of a photo that is not stored reads `userID` of `null`
  (route/photo-router.js:89) and passes the resulting TypeError on.
- The upload handler builds its photo under the keys `photoName` and
  `description` (route/photo-router.js:57-64), which the schema does not
  have, so it never stores a photo. `PostSpec` and `PostPhoto` model the
  handler as written. `PostSpecCorrected` models the handler with the
  schema's keys, and the lemmas about a stored photo are stated about it
  (see "## Findings").

## Model

| member | source | states |
|---|---|---|
| BasicAuth.Authenticate | lib/basic-auth-middleware.js:9-35 | The four rejections come in order: a falsy header gives "Authorization header required!", a falsy payload gives "Username and Password required!", an empty username gives "Username required!" and a falsy password gives "Password required!". `req.auth` is attached exactly when the header and the payload are present, so it is attached even when the username or password check rejects. The middleware proceeds exactly when the username is non-empty and the password is truthy. Neither field holds a colon. |
| BasicAuth.Middleware | lib/basic-auth-middleware.js:6-35 | The middleware writes `req.auth` in place exactly when `Authenticate` attaches credentials, and otherwise leaves it as it was. It signals what `Authenticate` decides, and leaves the header and body untouched. |
| BasicAuth.ParseCredentials | lib/basic-auth-middleware.js:20-25 | The username is the first piece of the text split on ':' and the password the second. Neither holds a colon, and the password is undefined exactly when the text has no colon. |
| BasicAuth.Payload | lib/basic-auth-middleware.js:14-15 | The payload is the second piece of the header split on "Basic ". It is undefined exactly when "Basic " occurs nowhere in the header. |
| BasicAuth.DecodeText | lib/basic-auth-middleware.js:19 | For well-formed base64, the text has one character per decoded byte, each below 256. Other input is handed to Node's lenient decoder, a parameter. |
| BasicAuth.PayloadBetween | lib/basic-auth-middleware.js:14 | The payload is the text from the end of the first "Basic " to the next occurrence, or to the end of the header. The scheme need not open the header. |
| BasicAuth.NoSchemeRejected | lib/basic-auth-middleware.js:14-17 | A non-empty header without "Basic " is rejected with 401 "Username and Password required!" and nothing is attached. |
| BasicAuth.ParseColonSeparated | lib/basic-auth-middleware.js:20-25 | For `u:p:rest…`, the credentials are `(u, p)`, and everything after a second colon is dropped. |
| BasicAuth.ColonTruncatesPassword | lib/basic-auth-middleware.js:20-25 | A client that encodes `u:p:rest` is admitted as `u` with password `p`: the rest of its password is lost. |
| BasicAuth.EncodedPayload | lib/basic-auth-middleware.js:14 | For a header made of a prefix, "Basic " and the base64 of a non-empty ASCII text, the payload is exactly that base64 text. |
| BasicAuth.EncodedText | lib/basic-auth-middleware.js:19 | Decoding the base64 of an ASCII text gives back the text. |
| BasicAuth.RoundTrip | lib/basic-auth-middleware.js:14-35 | For a non-empty `u` and `p` without colons, `"Basic " + base64(u + ":" + p)` gives `req.auth == {u, p}` and proceeds with no error. This holds after any prefix in which that is the first "Basic ". |
| BasicAuth.RoundTripBare | lib/basic-auth-middleware.js:14-35 | The same round trip for a header that starts with the scheme, as clients send it. |
| BasicAuth.UsernameCheckedFirst | lib/basic-auth-middleware.js:22-33 | For the credentials ":", `req.auth` is attached with both fields empty, and the username rejection fires before the password rejection. |
| Encoding.DecodeEncode | lib/basic-auth-middleware.js:19 | Decoding the base64 encoding of any byte string gives back the bytes. |
| Encoding.EncodeDecode | lib/basic-auth-middleware.js:19 | Any text that strict decoding accepts is the encoding of what it decodes to, so strict decoding accepts exactly the canonical encodings. |
| Encoding.AsciiRoundTrip | lib/basic-auth-middleware.js:19 | ASCII text read as bytes and back is unchanged. |
| Encoding.Decode | lib/basic-auth-middleware.js:19 | Strict decoding accepts only a whole number of four-character groups. It gives three bytes per group, less one or two for a padded last group. |
| Encoding.Hex | model/user.js:58 | Hex output is two characters per byte, each a lower-case hex digit. |
| Encoding.UnhexHex | model/user.js:58 | Hex text decodes back to its bytes, so distinct random values give distinct find-hashes. |
| Text.JoinSplit | lib/basic-auth-middleware.js:14 | Joining the pieces of a split with the same separator gives back the text. |
| Text.SplitManyIffOccurs | lib/basic-auth-middleware.js:14-15 | Splitting gives more than one piece exactly when the separator occurs. |
| Text.SplitJoinOnChar | lib/basic-auth-middleware.js:20 | Splitting on a character recovers pieces that were joined with it, when the pieces are free of that character. |
| Text.Split | lib/basic-auth-middleware.js:14-20 | `String.prototype.split` always gives at least one piece. |
| UserModel.MissingRequired | model/user.js:15-16 | No required path fails exactly when `password` and `email` are non-empty strings. |
| UserModel.FromFields | route/auth-router.js:22 | `new User(body)` takes each schema path from the body when present and leaves it absent otherwise. Validation passes exactly when the body has a non-empty password and email. |
| UserModel.WithDefaultUsername | model/user.js:20-23 | The pre-save hook changes only the username. A username that is set is kept, and a falsy one becomes the email, so afterwards the username is set exactly when it was or the email is. |
| UserModel.DefaultUsernameIdempotent | model/user.js:20-23 | The pre-save default is idempotent, and afterwards the username is set whenever the email is. |
| UserModel.UpsertKeepsUnique | model/user.js:13-18 | Writing a document that collides with no other keeps `_id` and the three unique indexes intact, and the document is then stored. |
| UserModel.Upsert | model/user.js:59 | `save()` updates the document with the same `_id` in place, or appends it. The document is then stored, every document with another `_id` stays, and nothing else appears. |
| UserModel.SaveOutcome | model/user.js:13-23 | A save succeeds exactly when both required fields are present, the database reports no fault, and no other document shares the hooked document's username, email or find-hash. On success the hooked document is stored with a username. On failure the collection is unchanged. The unique indexes are preserved either way. |
| UserModel.FindByUsername | route/auth-router.js:40 | The lookup gives the first document in natural order whose username is the name, and none exactly when no document has it. |
| UserModel.FindByUsernameUnique | route/auth-router.js:40 | Under the unique username index, the lookup finds the one document with that username. |
| UserModel.ComparePasswordHash | model/user.js:40-46 | The comparison resolves only when bcrypt says the password matches. A mismatch rejects with 401 "Does not match password on file", and a bcrypt error is passed on unchanged. |
| UserModel.FindHashFrom | model/user.js:52-67 | The retry loop from attempt `attempts` on, as a recursive specification. Each attempt writes the hex of that attempt's random bytes, saves, and retries on any save error while the counter is at most 3. Its properties are the lemmas below. |
| UserModel.FindHashRun | model/user.js:53-66 | The loop makes between 1 and 5 saves. It rejects only after exactly 5, and then leaves the collection as it was. It never changes the id, password, email or an existing username. |
| UserModel.FindHashLastError | model/user.js:57-62 | When the loop gives up, it rejects with the error of its last save. That is the error the same document, carrying the last attempt's find-hash, meets in the collection the loop started from. |
| UserModel.SameSaveError | model/user.js:13-23 | A save meets the same error for two documents that, given the same find-hash, fail the same required paths and are equal once the pre-save hook has run. |
| UserModel.FindHashSuccess | model/user.js:58-60 | On success, the document's find-hash is exactly the value the loop resolves with. |
| UserModel.FindHashDrawn | model/user.js:58-60 | On success, the value is the hex of the bytes drawn by the last attempt, and it is 64 characters long. |
| UserModel.FindHashStored | model/user.js:59-60 | On success, the document as the loop leaves it is in the collection. |
| UserModel.FindHashKeepsUnique | model/user.js:57-65 | The loop keeps the unique indexes of the collection intact. |
| UserModel.FindHashAlwaysFailing | model/user.js:61-64 | When every save meets a fault, the loop makes exactly 5 saves, rejects with the fault of the last one and leaves the collection unchanged. |
| UserModel.FindHashAddsOnlyDoc | model/user.js:57-62 | Every document the loop adds to the collection has the id and the password of the document it started from. |
| UserModel.User.constructor | route/auth-router.js:22 | `new User(body)` keeps exactly the schema paths present in the body. |
| UserModel.User.Load | route/auth-router.js:40-41 | A document returned by a query becomes a user object with the same fields. |
| UserModel.User.Save | model/user.js:20-23 | `save()` on the object updates its fields and the collection as `SaveOutcome` says, and reports the same error. |
| UserModel.User.GeneratePasswordHash | model/user.js:28-34 | On success, only `password` changes and it holds the hash. On a hashing error, the error is returned and nothing changes. |
| UserModel.User.SaveWithFindHash | model/user.js:58-59 | One attempt writes the find-hash and then saves, as `SaveOutcome` says. |
| UserModel.User.GenerateFindHash | model/user.js:52-67 | The `attempts` loop returns the result and save count of `FindHashFrom`, and leaves the document and collection as `FindHashFrom` does. |
| UserModel.User.GenerateToken | model/user.js:73-77 | The result is the signature over `{token: findHash}` for the find-hash the loop resolves with, or the loop's error. |
| AuthRouter.RegisterValidation | route/auth-router.js:16-17 | Registration passes validation exactly when `password` and `email` are truthy. Otherwise it fails with 400 "Bad Request". |
| AuthRouter.RegisterSpec | route/auth-router.js:16-28 | A failed validation leaves the collection as it was and responds 400. Any response that is sent has status 200. |
| AuthRouter.Register | route/auth-router.js:13-29 | The response and the collection are those of `RegisterSpec`. The body loses `password` exactly when validation passes, and nothing else on the request changes. |
| AuthRouter.RegisterSucceeds | route/auth-router.js:19-28 | After a successful registration, a stored document has the new id, the hash of the submitted password, the submitted email, the submitted username (or the email when that is falsy) and a find-hash, and the response is the token signed over that find-hash. |
| AuthRouter.RegisterStoresOnlyHash | route/auth-router.js:19-28 | Whatever the outcome, including a token failure after the user was saved, every document registration adds has the new id and the hash of the submitted password as its password, never the plaintext. |
| AuthRouter.RegisterKeepsUnique | route/auth-router.js:22-26 | Registration keeps the unique indexes intact, whatever the collaborators do. |
| AuthRouter.RegisterDuplicateEmail | route/auth-router.js:25 | Registering an email another user holds fails with the duplicate-key error, and the collection is unchanged. |
| AuthRouter.TokenResponse | route/auth-router.js:26-28 | A token is sent with status 200, and a failure is passed to `next`. |
| AuthRouter.LoginSpec | route/auth-router.js:31-44 | The middleware's rejection is the response and nothing is written. When the middleware proceeds but the lookup by username fails, that error is the response and nothing is written. A token is sent only when the middleware proceeded. |
| AuthRouter.Login | route/auth-router.js:31-44 | The response and the collection are those of `LoginSpec`. `req.auth` is what the middleware attaches, or is unchanged when it attaches nothing. The header and the body are unchanged. |
| AuthRouter.LoginUnknownUser | route/auth-router.js:34-36 | Credentials whose username no document holds give 401 "Invalid Credentials", even when some document holds that name as its email. |
| AuthRouter.LoginWrongPassword | route/auth-router.js:40-41 | A stored user whose password the comparison rejects gets 401 "Does not match password on file", and nothing is written. |
| AuthRouter.LoginAccepted | route/auth-router.js:40-43 | For any header the middleware accepts as `(u, p)`, a stored user `u` whose password matches gets 200 with the token signed over the find-hash now stored for that user. |
| AuthRouter.LoginSucceeds | route/auth-router.js:31-43 | End to end: a client sending `"Basic " + base64(u + ":" + p)` gets that 200 and token. |
| PhotoModel.MissingPaths | model/photo.js:7-12 | A required path fails exactly when its string is absent or empty, or, for `userID`, when it is absent. |
| PhotoModel.FromDocument | model/photo.js:6-14 | Strict mode keeps only the schema's paths, and `created` is unset. |
| PhotoModel.Build | model/photo.js:13 | A valid photo carries the given fields, and `created` defaults to the clock. |
| PhotoModel.Insert | model/photo.js:6-14 | A failed validation rejects with the missing paths. Otherwise the insert succeeds exactly when no stored photo shares the `galleryID`, `imageURI` or `objectKey`, and the photo is then appended. A rejected insert leaves the collection unchanged, and the unique indexes are preserved. |
| PhotoModel.OnePhotoPerGallery | model/photo.js:10 | A second photo for a gallery that already has one is refused with the duplicate-key error. |
| PhotoModel.DuplicateLocationRejected | model/photo.js:11-12 | A repeated image URI or object key is refused with the duplicate-key error. |
| PhotoModel.FindById | route/photo-router.js:87 | The lookup finds a stored photo with that id, and none exactly when no photo has it. |
| PhotoModel.RemoveById | route/photo-router.js:102 | When the photo is absent nothing changes. Otherwise exactly one photo goes, and every photo with another id stays. |
| PhotoModel.DropKeepsUnique | model/photo.js:10-12 | Dropping any one photo keeps the unique indexes intact. |
| PhotoModel.RemoveKeepsUnique | route/photo-router.js:102 | Removal by id keeps the unique indexes intact. |
| GalleryModel.MissingPaths | model/gallery.js:7-10 | `galleryName`, `description` and `userID` are required, and `created` never fails because its default applies first. |
| GalleryModel.Insert | model/gallery.js:6-11 | The insert succeeds exactly when validation passes. It appends the gallery with the given fields and `created` defaulting to the clock. |
| GalleryModel.DuplicatesAllowed | model/gallery.js:6-11 | With no unique index, the same fields can be saved twice. |
| PathExt.ExtName | route/photo-router.js:44 | The extension is empty or a dot with no further dot and no slash, taken from the end of the last path segment. |
| PathExt.ExtNameOfDotted | route/photo-router.js:44 | The extension of `stem.ext` is `.ext`. |
| PathExt.DotFileHasNoExt | route/photo-router.js:44 | A name whose only dot leads it, such as ".profile", has no extension. |
| PathExt.ExtNameIgnoresDirectory | route/photo-router.js:44 | Dots in directory names do not count. |
| PhotoRouter.UploadCheck | route/photo-router.js:36-42 | No file gives 400 "file not found", and a file without a path gives 500 "file not saved". The checks pass exactly when a file with a path is present. |
| PhotoRouter.ObjectKey | route/photo-router.js:44-49 | The S3 key starts with multer's stored file name. What follows is empty, or a dot followed by neither a dot nor a slash. |
| PhotoRouter.PhotoLiteralAsWritten | route/photo-router.js:57-64 | The literal as written has exactly the keys `photoName`, `description`, `objectKey`, `imageURI`, `userID` and `galleryID`, and neither `name` nor `desc`. |
| PhotoRouter.PhotoLiteral | route/photo-router.js:57-64 | The corrected literal carries the request's `photoName` and `description` under the schema's `name` and `desc`. |
| PhotoRouter.ObjectKeyKeepsExtension | route/photo-router.js:44-49 | For a client file `stem.ext`, the key is the stored file name followed by `.ext`. |
| PhotoRouter.AsWrittenPhotoRejected | route/photo-router.js:57-65 | As written, every save of an upload fails validation on `name` and `desc`. |
| PhotoRouter.CorrectedPhotoAccepted | route/photo-router.js:57-65 | With the schema's keys, the save stores the request's name and description, the requester as owner, the route's gallery, the S3 location and key, and the clock's time. |
| PhotoRouter.Stage | route/photo-router.js:36-54 | The steps before the save, in order: no file, a file not on disk, the gallery lookup error, then the S3 error. Only when all pass is the object uploaded under `ObjectKey`, with the URL S3 gives. |
| PhotoRouter.PostSpec | route/photo-router.js:33-68 | The handler as written. A failed file check, gallery lookup or upload is the response, and nothing changes. After an upload the object is in the bucket whatever the save decides. |
| PhotoRouter.SaveUploaded | route/photo-router.js:55-68 | After the upload, the object is in the bucket whatever the save decides. |
| PhotoRouter.PostPhoto | route/photo-router.js:33-68 | The handler as written, as a method on the backend. Its response, collection and bucket are those of `PostSpec`. |
| PhotoRouter.PostNeverStores | route/photo-router.js:53-68 | As written, no request ever stores or sends a photo: the collection is unchanged and the outcome is an error passed to `next`. After the upload that error is a validation failure naming `name` and `desc`, and the object stays in the bucket. |
| PhotoRouter.AsWrittenSaveFails | route/photo-router.js:57-65 | Saving the literal as written fails validation on at least `name` and `desc`, whatever the request and the collection. |
| PhotoRouter.PostAfterUploadRejected | route/photo-router.js:53-68 | For an upload with a non-empty key, location and gallery id, the handler as written answers exactly the validation error on `name` and `desc` and keeps the object in the bucket. |
| PhotoRouter.PostSpecCorrected | route/photo-router.js:33-68 | The handler with the literal corrected. A failed file check is the response, an error leaves the collection unchanged, and the unique indexes are preserved. |
| PhotoRouter.PostStoresPhoto | route/photo-router.js:57-67 | For the corrected handler, a photo that is sent back has status 200 and is appended. It belongs to the requester, is filed under the route's gallery, carries the request's name and description, and has the object key made from the file, which is in the bucket. |
| PhotoRouter.CorrectedPostStores | route/photo-router.js:53-67 | For the corrected handler, a named and described upload to a gallery without a photo, at a fresh location, gets 200. The new photo is appended with the requester as owner, and the object is in the bucket. |
| PhotoRouter.PostAfterUpload | route/photo-router.js:53-68 | For the corrected handler, once the checks, the lookup and the upload pass, the outcome is the save's, and the object is in the bucket either way. |
| PhotoRouter.CorrectedLiteralInTakenGallery | route/photo-router.js:57-65 | With the corrected literal, a photo for a gallery that already has one is refused with the duplicate-key error. |
| PhotoRouter.RejectedSaveKeepsObject | route/photo-router.js:54-68 | For the corrected handler, when the save is refused after the upload, the object stays in the bucket with no photo pointing at it. |
| PhotoRouter.Ids | route/photo-router.js:78 | The list holds the photos' ids, in order. |
| PhotoRouter.ListPhotos | route/photo-router.js:73-80 | A failed read of the collection is passed on as it is. Otherwise an empty collection gives 416 "Out of range". Otherwise the response is 401 "invalid user" exactly when the last photo's owner is not the requester, and else 200 with every id in order. |
| PhotoRouter.ListShowsOthersPhotos | route/photo-router.js:77-78 | The owner of the last photo is shown the ids of photos owned by others. |
| PhotoRouter.DeleteSpec | route/photo-router.js:86-105 | A failed read of the photo is passed on and changes nothing. A missing photo changes nothing and passes an error on. Another owner's photo gives 401 "invalid user" and changes nothing. A response that is sent is 204. |
| PhotoRouter.DeletePhoto | route/photo-router.js:83-106 | The response, the collection and the bucket are those of `DeleteSpec`, with `tempPhoto` held as the handler holds it. |
| PhotoRouter.OwnerDeletes | route/photo-router.js:94-104 | The owner gets 204. The photo's record and its object are gone, every other photo stays, and the unique indexes are preserved. |
| PhotoRouter.GalleryErrorStillDeletes | route/photo-router.js:91-104 | A failed gallery lookup is what the owner is told, yet the photo and its object are deleted all the same. |

## Left out

- BasicAuth.DecodeText: decoded bytes are read one character per byte (Latin-1), not as UTF-8. The two agree on ASCII, and the round-trip lemmas are stated only for ASCII credentials.
- BasicAuth.DecodeText: Node's lenient decoding of malformed base64 is the parameter `lenient`. Only well-formed input is decoded as RFC 4648 defines it.
- Calling `next` twice. Login runs two lookups at once, so for an unknown user it calls `next` with the 401 and then with a TypeError from the second lookup. The model keeps the 401. The two lookups read the same collection and are given one outcome, `lookupFault`. A failed `Photo.findById` in the delete handler is likewise followed by a TypeError on `tempPhoto`, and the model keeps the first error.
- DELETE after `next`. After the 401 for another owner's photo the chain goes on and fails on `tempPhoto`. The model keeps the first decision, and nothing is deleted in either version.
- The error middleware and the status codes it produces (404 for a malformed id, for instance) are not part of this model. Errors are modelled as the values handed to `next`.
- `Photo.findById` on a malformed id (a cast error) is not modelled. Ids are plain strings compared for equality.
- The S3 upload, `deleteObject`, multer, the `del` cleanup of the data directory and the file streams are I/O. Only their outcomes (success, the returned location, or an error) enter the model. The object key S3 reports back is taken to be the key that was sent.
- The gallery lookup in the photo handlers contributes only its error, because its result is never used.
- The bearer middleware (lib/bearer-auth-middleware.js:9-12) is a stub that never calls `next`, so as written no photo handler is ever reached. The model takes the requester's id as a parameter and models the handlers as if the middleware had attached it. The gallery router (route/gallery-router.js) has no handlers and is not part of this model.
- server.js and the database connection are not part of this model.
- bcrypt (including its cost factor of 10), `crypto.randomBytes`, `jwt.sign` and `APP_SECRET` are parameters. No property of hashing or signing is assumed, so `compare(p, hash(p))` is not assumed to hold.
- The freshness of random bytes is not assumed: a colliding find-hash is a save error that triggers a retry.
- AuthRouter.RegisterSpec: `newId` is assumed fresh. If it equals a stored `_id`, the model's `save()` overwrites that document and registration answers 200, where MongoDB would reject the insert with a duplicate-key error on `_id`.
- Concurrent requests are not modelled. Each handler runs to completion on the collection it is given.
- UserModel.FromFields: an `_id` key in the register body is ignored, and the new document always takes the id `newId`. Mongoose would use that value or fail to cast it. The model cannot tell the two apart, because `newId` is a parameter.
- Request bodies are maps from strings to strings. JSON numbers, objects or arrays in a body are not modelled.
- Debug logging is left out.

## Findings

| source | as written | input that shows it | evidently intended | confidence | as-written member | corrected member |
|---|---|---|---|---|---|---|
| route/photo-router.js:57-65 | The photo is built with keys `photoName` and `description`. The schema (model/photo.js:7-8) requires `name` and `desc`, and strict mode drops unknown keys, so every upload's save fails validation on `name` and `desc` after the object is already in S3. | An upload with `photoName: "a"`, `description: "b"` and a valid file for a gallery with no photo yet: the save rejects with a validation error on `name` and `desc`. | Store the request's `photoName` as `name` and `description` as `desc`. | not executed | PhotoRouter.PostAfterUploadRejected | PhotoRouter.CorrectedPostStores |
