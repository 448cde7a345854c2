/** The three handlers of route/photo-router.js over a backend holding the
    photo collection and the set of object keys in the S3 bucket. The
    requester's id (`req.user._id`) is a parameter; the file multer stored,
    the gallery lookup, the S3 calls and the clock are parameters too. */
module PhotoRouter {
  import opened Common
  import opened Http
  import opened PhotoModel
  import PathExt

  const MsgFileNotFound := "file not found"
  const MsgFileNotSaved := "file not saved"
  const MsgOutOfRange := "Out of range"
  const MsgInvalidUser := "invalid user"

  /** `req.file` as multer leaves it: the name it stored the upload under,
      the client's file name and the path on disk (absent when not saved). */
  datatype UploadedFile = UploadedFile(filename: string, originalname: string, path: Option<string>)

  /** What a handler sent or passed to `next`, with the collection and the
      bucket it left behind. */
  datatype Effect<+B> = Effect(response: Response<B>, photos: seq<Photo>, objects: set<string>)

  /** The photo collection and the bucket. */
  class Backend {
    var photos: seq<Photo>
    var objects: set<string>

    constructor ()
      ensures photos == [] && objects == {}
    {
      photos := [];
      objects := {};
    }
  }

  // ---------------------------------------------------------------------------
  // POST /api/gallery/:galleryID/photo

  /** The two checks on the upload, in order: no file, then a file that was
      not written to disk. */
  function UploadCheck(file: Option<UploadedFile>): (r: Option<Error>)
    ensures file.None? ==> r == Some(Http(400, MsgFileNotFound))
    ensures file.Some? && !Truthy(file.value.path) ==> r == Some(Http(500, MsgFileNotSaved))
    ensures r.None? <==> file.Some? && Truthy(file.value.path)
  {
    if file.None? then Some(Http(400, MsgFileNotFound))
    else if !Truthy(file.value.path) then Some(Http(500, MsgFileNotSaved))
    else None
  }

  /** The S3 key: the stored file name followed by the extension of the
      client's file name: empty, or a dot followed by neither a dot nor a
      slash. */
  function ObjectKey(file: UploadedFile): (key: string)
    ensures |file.filename| <= |key| && key[..|file.filename|] == file.filename
    ensures var ext := key[|file.filename|..];
            ext == [] || (ext[0] == PathExt.Dot &&
                          forall k :: 0 < k < |ext| ==> ext[k] != PathExt.Dot && ext[k] != PathExt.Slash)
  {
    file.filename + PathExt.ExtName(file.originalname)
  }

  /** For a client file named `stem.ext` the key is the stored name followed
      by `.ext`. */
  lemma ObjectKeyKeepsExtension(filename: string, stem: string, ext: string, path: Option<string>)
    requires stem != [] && PathExt.Slash !in stem && PathExt.Slash !in ext && PathExt.Dot !in ext
    requires stem != [PathExt.Dot] || ext != []
    ensures ObjectKey(UploadedFile(filename, stem + [PathExt.Dot] + ext, path)) == filename + [PathExt.Dot] + ext
  {
    PathExt.ExtNameOfDotted(stem, ext);
  }

  /** The photo literal as the handler writes it: the name and description
      go under `photoName` and `description`, keys the schema does not have. */
  function PhotoLiteralAsWritten(body: map<string, string>, key: string, location: string,
                                 requester: ObjectId, galleryID: string): (doc: map<string, Option<string>>)
    ensures doc.Keys == {"photoName", "description", "objectKey", "imageURI", "userID", "galleryID"}
    ensures "name" !in doc && "desc" !in doc
    ensures doc["photoName"] == Get(body, "photoName") && doc["description"] == Get(body, "description")
  {
    map["photoName" := Get(body, "photoName"), "description" := Get(body, "description"),
        "objectKey" := Some(key), "imageURI" := Some(location),
        "userID" := Some(requester), "galleryID" := Some(galleryID)]
  }

  /** The photo literal with the request's `photoName` and `description`
      under the schema's `name` and `desc`. */
  function PhotoLiteral(body: map<string, string>, key: string, location: string,
                        requester: ObjectId, galleryID: string): (doc: map<string, Option<string>>)
    ensures doc.Keys == {"name", "desc", "objectKey", "imageURI", "userID", "galleryID"}
    ensures doc["name"] == Get(body, "photoName") && doc["desc"] == Get(body, "description")
  {
    map["name" := Get(body, "photoName"), "desc" := Get(body, "description"),
        "objectKey" := Some(key), "imageURI" := Some(location),
        "userID" := Some(requester), "galleryID" := Some(galleryID)]
  }

  /** As written, every save of an uploaded photo fails validation on
      `name` and `desc`, whatever the request carries: the strict schema
      drops `photoName` and `description`. */
  lemma AsWrittenPhotoRejected(photos: seq<Photo>, id: ObjectId, body: map<string, string>, key: string,
                               location: string, requester: ObjectId, galleryID: string, now: Time)
    requires key != [] && location != [] && galleryID != []
    ensures Insert(photos, id, FromDocument(PhotoLiteralAsWritten(body, key, location, requester, galleryID)), now) ==
              Insertion(photos, Failure(Validation({"name", "desc"})))
  {
    var f := FromDocument(PhotoLiteralAsWritten(body, key, location, requester, galleryID));
    assert f.name == None && f.desc == None;
    assert MissingPaths(f) == {"name", "desc"};
  }

  /** With the keys the schema declares, a request carrying a photo name
      and a description saves a photo holding them, owned by the requester
      and filed under the route's gallery, unless a unique index objects. */
  lemma CorrectedPhotoAccepted(photos: seq<Photo>, id: ObjectId, body: map<string, string>, key: string,
                               location: string, requester: ObjectId, galleryID: string, now: Time)
    requires Truthy(Get(body, "photoName")) && Truthy(Get(body, "description"))
    requires key != [] && location != [] && galleryID != []
    requires forall i :: 0 <= i < |photos| ==>
               photos[i].galleryID != galleryID && photos[i].imageURI != location && photos[i].objectKey != key
    ensures var r := Insert(photos, id, FromDocument(PhotoLiteral(body, key, location, requester, galleryID)), now);
            && r.result.Success?
            && r.result.value == Photo(id, body["photoName"], body["description"], requester, galleryID, location, key, now)
            && r.photos == photos + [r.result.value]
  {
    var f := FromDocument(PhotoLiteral(body, key, location, requester, galleryID));
    assert MissingPaths(f) == {};
  }

  /** Where the upload handler stands before its save: stopped with the
      error it passed to `next`, or past the file checks, the gallery
      lookup and the S3 upload, with the object key and the URL S3 gave. */
  datatype Staged = Stopped(err: Error) | Uploaded(key: string, location: string)

  /** The steps before the save, in order: the file checks, the gallery
      lookup (whose result is not used, only its error) and the S3 upload
      under the key. `upload(key)` is the S3 outcome, the object's URL on
      success. */
  function Stage(file: Option<UploadedFile>, galleryFault: Option<Error>,
                 upload: string -> Result<string, Error>): (s: Staged)
    ensures UploadCheck(file).Some? ==> s == Stopped(UploadCheck(file).value)
    ensures UploadCheck(file).None? && galleryFault.Some? ==> s == Stopped(galleryFault.value)
    ensures UploadCheck(file).None? && galleryFault.None? && upload(ObjectKey(file.value)).Failure? ==>
              s == Stopped(upload(ObjectKey(file.value)).error)
    ensures s.Uploaded? <==>
              UploadCheck(file).None? && galleryFault.None? && upload(ObjectKey(file.value)).Success?
    ensures s.Uploaded? ==> s.key == ObjectKey(file.value) && upload(s.key) == Success(s.location)
  {
    match UploadCheck(file)
    case Some(err) => Stopped(err)
    case None =>
      var key := ObjectKey(file.value);
      if galleryFault.Some? then Stopped(galleryFault.value)
      else
        match upload(key)
        case Failure(err) => Stopped(err)
        case Success(location) => Uploaded(key, location)
  }

  /** `.then(photo => res.json(photo)).catch(next)`: the saved photo is
      sent back, a failed save goes to `next`. */
  function Answer(saved: Result<Photo, Error>): Response<Photo> {
    match saved
    case Success(p) => Sent(200, p)
    case Failure(err) => Next(err)
  }

  /** The save that follows a successful upload: the object is in the
      bucket whatever the save decides, and the response is the saved photo
      or the save's error. */
  function SaveUploaded(photos: seq<Photo>, objects: set<string>, key: string, doc: map<string, Option<string>>,
                        newId: ObjectId, now: Time): (e: Effect<Photo>)
    ensures e.objects == objects + {key}
    ensures e.response.Next? ==> e.photos == photos
    ensures UniquePaths(photos) ==> UniquePaths(e.photos)
  {
    var ins := Insert(photos, newId, FromDocument(doc), now);
    Effect(Answer(ins.result), ins.photos, objects + {key})
  }

  /** The upload handler as written, as a function of the backend: the
      steps of `Stage`, then the save of the literal the handler builds. */
  function PostSpec(photos: seq<Photo>, objects: set<string>, file: Option<UploadedFile>,
                    body: map<string, string>, galleryID: string, requester: ObjectId,
                    galleryFault: Option<Error>, upload: string -> Result<string, Error>,
                    newId: ObjectId, now: Time): (e: Effect<Photo>)
    ensures UploadCheck(file).Some? ==> e == Effect(Next(UploadCheck(file).value), photos, objects)
    ensures Stage(file, galleryFault, upload).Stopped? ==>
              e == Effect(Next(Stage(file, galleryFault, upload).err), photos, objects)
    ensures Stage(file, galleryFault, upload).Uploaded? ==> e.objects == objects + {Stage(file, galleryFault, upload).key}
  {
    match Stage(file, galleryFault, upload)
    case Stopped(err) => Effect(Next(err), photos, objects)
    case Uploaded(key, location) =>
      SaveUploaded(photos, objects, key, PhotoLiteralAsWritten(body, key, location, requester, galleryID), newId, now)
  }

  /** The upload handler. */
  method PostPhoto(backend: Backend, file: Option<UploadedFile>, body: map<string, string>, galleryID: string,
                   requester: ObjectId, galleryFault: Option<Error>, upload: string -> Result<string, Error>,
                   newId: ObjectId, now: Time)
    returns (resp: Response<Photo>)
    modifies backend
    ensures var e := PostSpec(old(backend.photos), old(backend.objects), file, body, galleryID, requester,
                              galleryFault, upload, newId, now);
            resp == e.response && backend.photos == e.photos && backend.objects == e.objects
  {
    var invalid := UploadCheck(file);
    if invalid.Some? {
      return Next(invalid.value);
    }
    var key := ObjectKey(file.value);
    if galleryFault.Some? {
      return Next(galleryFault.value);
    }
    var s3data := upload(key);
    if s3data.Failure? {
      return Next(s3data.error);
    }
    backend.objects := backend.objects + {key};
    var photoData := PhotoLiteralAsWritten(body, key, s3data.value, requester, galleryID);
    var ins := Insert(backend.photos, newId, FromDocument(photoData), now);
    backend.photos := ins.photos;
    resp := Answer(ins.result);
  }

  /** As written, the upload handler never stores a photo and never sends
      one back: whatever the request, the collection is unchanged and the
      outcome is an error passed to `next`. Once the upload has happened
      that error is a validation failure naming at least `name` and `desc`,
      and the object stays in the bucket with no photo pointing at it. */
  lemma PostNeverStores(photos: seq<Photo>, objects: set<string>, file: Option<UploadedFile>,
                        body: map<string, string>, galleryID: string, requester: ObjectId,
                        galleryFault: Option<Error>, upload: string -> Result<string, Error>,
                        newId: ObjectId, now: Time)
    ensures var e := PostSpec(photos, objects, file, body, galleryID, requester, galleryFault, upload, newId, now);
      && e.response.Next?
      && e.photos == photos
      && (Stage(file, galleryFault, upload).Uploaded? ==>
            && e.objects == objects + {Stage(file, galleryFault, upload).key}
            && e.response.err.Validation?
            && "name" in e.response.err.paths && "desc" in e.response.err.paths)
  {
    match Stage(file, galleryFault, upload)
    case Stopped(_) =>
    case Uploaded(key, location) =>
      AsWrittenSaveFails(photos, objects, key, location, body, requester, galleryID, newId, now);
  }

  /** The save of the literal as written fails validation on at least
      `name` and `desc`, whatever the request and the collection. */
  lemma AsWrittenSaveFails(photos: seq<Photo>, objects: set<string>, key: string, location: string,
                           body: map<string, string>, requester: ObjectId, galleryID: string,
                           newId: ObjectId, now: Time)
    ensures var e := SaveUploaded(photos, objects, key, PhotoLiteralAsWritten(body, key, location, requester, galleryID),
                                  newId, now);
      && e.response.Next? && e.photos == photos && e.objects == objects + {key}
      && e.response.err.Validation? && "name" in e.response.err.paths && "desc" in e.response.err.paths
  {
    var f := FromDocument(PhotoLiteralAsWritten(body, key, location, requester, galleryID));
    assert f.name == None && f.desc == None;
  }

  /** For an upload whose key, S3 location and gallery id are non-empty,
      the handler as written answers exactly the validation error on `name`
      and `desc`, after putting the object in the bucket. */
  lemma PostAfterUploadRejected(photos: seq<Photo>, objects: set<string>, file: UploadedFile,
                                body: map<string, string>, galleryID: string, requester: ObjectId,
                                upload: string -> Result<string, Error>, newId: ObjectId, now: Time)
    requires Truthy(file.path) && upload(ObjectKey(file)).Success?
    requires ObjectKey(file) != [] && upload(ObjectKey(file)).value != [] && galleryID != []
    ensures PostSpec(photos, objects, Some(file), body, galleryID, requester, None, upload, newId, now) ==
              Effect(Next(Validation({"name", "desc"})), photos, objects + {ObjectKey(file)})
  {
    var key := ObjectKey(file);
    AsWrittenPhotoRejected(photos, newId, body, key, upload(key).value, requester, galleryID, now);
  }

  /** The upload handler with the schema's keys: the same steps, then the
      save of the corrected literal. */
  function PostSpecCorrected(photos: seq<Photo>, objects: set<string>, file: Option<UploadedFile>,
                             body: map<string, string>, galleryID: string, requester: ObjectId,
                             galleryFault: Option<Error>, upload: string -> Result<string, Error>,
                             newId: ObjectId, now: Time): (e: Effect<Photo>)
    ensures UploadCheck(file).Some? ==> e == Effect(Next(UploadCheck(file).value), photos, objects)
    ensures e.response.Next? ==> e.photos == photos
    ensures UniquePaths(photos) ==> UniquePaths(e.photos)
  {
    match Stage(file, galleryFault, upload)
    case Stopped(err) => Effect(Next(err), photos, objects)
    case Uploaded(key, location) =>
      SaveUploaded(photos, objects, key, PhotoLiteral(body, key, location, requester, galleryID), newId, now)
  }

  /** A photo the corrected handler sends back is stored, belongs to the
      requester, is filed under the route's gallery, carries the request's
      name and description, and its object key, made from the stored file
      name and the client's extension, is in the bucket. */
  lemma PostStoresPhoto(photos: seq<Photo>, objects: set<string>, file: Option<UploadedFile>,
                        body: map<string, string>, galleryID: string, requester: ObjectId,
                        galleryFault: Option<Error>, upload: string -> Result<string, Error>,
                        newId: ObjectId, now: Time)
    requires PostSpecCorrected(photos, objects, file, body, galleryID, requester, galleryFault, upload, newId, now).response.Sent?
    ensures var e := PostSpecCorrected(photos, objects, file, body, galleryID, requester, galleryFault, upload, newId, now);
      var p := e.response.body;
      && file.Some?
      && e.response.status == 200
      && e.photos == photos + [p]
      && p.id == newId && p.userID == requester && p.galleryID == galleryID
      && Some(p.name) == Get(body, "photoName") && Some(p.desc) == Get(body, "description")
      && p.objectKey == ObjectKey(file.value)
      && e.objects == objects + {p.objectKey}
      && p.created == now
  {
  }

  /** Once the file checks, the gallery lookup and the upload pass, the
      corrected handler's outcome is that of the save, and the object is in
      the bucket either way. */
  lemma PostAfterUpload(photos: seq<Photo>, objects: set<string>, file: UploadedFile,
                        body: map<string, string>, galleryID: string, requester: ObjectId,
                        upload: string -> Result<string, Error>, newId: ObjectId, now: Time)
    requires Truthy(file.path) && upload(ObjectKey(file)).Success?
    ensures var key := ObjectKey(file);
      var ins := Insert(photos, newId, FromDocument(PhotoLiteral(body, key, upload(key).value, requester, galleryID)), now);
      PostSpecCorrected(photos, objects, Some(file), body, galleryID, requester, None, upload, newId, now) ==
        Effect(if ins.result.Success? then Sent(200, ins.result.value) else Next(ins.result.error),
               ins.photos, objects + {key})
  {
  }

  /** The corrected handler does what the route is for: once the checks,
      the lookup and the upload pass, a request carrying a photo name and a
      description for a gallery without a photo, at a fresh location, gets
      200 with the stored photo, owned by the requester. */
  lemma CorrectedPostStores(photos: seq<Photo>, objects: set<string>, file: UploadedFile,
                            body: map<string, string>, galleryID: string, requester: ObjectId,
                            upload: string -> Result<string, Error>, newId: ObjectId, now: Time)
    requires Truthy(file.path) && upload(ObjectKey(file)).Success?
    requires Truthy(Get(body, "photoName")) && Truthy(Get(body, "description"))
    requires ObjectKey(file) != [] && upload(ObjectKey(file)).value != [] && galleryID != []
    requires forall i :: 0 <= i < |photos| ==>
               && photos[i].galleryID != galleryID
               && photos[i].imageURI != upload(ObjectKey(file)).value
               && photos[i].objectKey != ObjectKey(file)
    ensures var key := ObjectKey(file);
      var p := Photo(newId, body["photoName"], body["description"], requester, galleryID, upload(key).value, key, now);
      PostSpecCorrected(photos, objects, Some(file), body, galleryID, requester, None, upload, newId, now) ==
        Effect(Sent(200, p), photos + [p], objects + {key})
  {
    var key := ObjectKey(file);
    PostAfterUpload(photos, objects, file, body, galleryID, requester, upload, newId, now);
    CorrectedPhotoAccepted(photos, newId, body, key, upload(key).value, requester, galleryID, now);
  }

  /** With the corrected literal, a photo for a gallery that already has
      one is refused with the duplicate-key error. */
  lemma CorrectedLiteralInTakenGallery(photos: seq<Photo>, body: map<string, string>, key: string, location: string,
                                       requester: ObjectId, galleryID: string, newId: ObjectId, now: Time, i: nat)
    requires Truthy(Get(body, "photoName")) && Truthy(Get(body, "description"))
    requires key != [] && location != [] && galleryID != []
    requires i < |photos| && photos[i].galleryID == galleryID
    ensures Insert(photos, newId, FromDocument(PhotoLiteral(body, key, location, requester, galleryID)), now) ==
              Insertion(photos, Failure(DuplicateKey))
  {
    var f := FromDocument(PhotoLiteral(body, key, location, requester, galleryID));
    assert MissingPaths(f) == {};
    OnePhotoPerGallery(photos, i, newId, f, now);
  }

  /** When the corrected handler's save is refused after the upload (a
      second photo for the same gallery, say), the object stays in the
      bucket with no photo pointing at it. */
  lemma RejectedSaveKeepsObject(photos: seq<Photo>, objects: set<string>, file: UploadedFile,
                                body: map<string, string>, galleryID: string, requester: ObjectId,
                                upload: string -> Result<string, Error>, newId: ObjectId, now: Time, i: nat)
    requires Truthy(file.path) && upload(ObjectKey(file)).Success?
    requires Truthy(Get(body, "photoName")) && Truthy(Get(body, "description"))
    requires ObjectKey(file) != [] && upload(ObjectKey(file)).value != [] && galleryID != []
    requires i < |photos| && photos[i].galleryID == galleryID
    ensures PostSpecCorrected(photos, objects, Some(file), body, galleryID, requester, None, upload, newId, now) ==
              Effect(Next(DuplicateKey), photos, objects + {ObjectKey(file)})
  {
    PostAfterUpload(photos, objects, file, body, galleryID, requester, upload, newId, now);
    CorrectedLiteralInTakenGallery(photos, body, ObjectKey(file), upload(ObjectKey(file)).value,
                                   requester, galleryID, newId, now, i);
  }

  // ---------------------------------------------------------------------------
  // GET /api/photos

  /** The ids of the photos, in order. */
  function Ids(photos: seq<Photo>): (ids: seq<ObjectId>)
    ensures |ids| == |photos|
    ensures forall i :: 0 <= i < |photos| ==> ids[i] == photos[i].id
    decreases |photos|
  {
    if photos == [] then [] else [photos[0].id] + Ids(photos[1..])
  }

  /** The list handler: a failed read of the collection is passed on; 416
      on an empty collection; otherwise only the owner of the last photo is
      compared with the requester. */
  function ListPhotos(photos: seq<Photo>, requester: ObjectId, lookupFault: Option<Error>): (r: Response<seq<ObjectId>>)
    ensures lookupFault.Some? ==> r == Next(lookupFault.value)
    ensures lookupFault.None? && |photos| == 0 ==> r == Next(Http(416, MsgOutOfRange))
    ensures lookupFault.None? && |photos| > 0 ==>
              (r == Next(Http(401, MsgInvalidUser)) <==> photos[|photos| - 1].userID != requester)
    ensures r.Sent? <==> lookupFault.None? && |photos| > 0 && photos[|photos| - 1].userID == requester
    ensures r.Sent? ==> r.status == 200 && |r.body| == |photos| &&
                        forall i :: 0 <= i < |photos| ==> r.body[i] == photos[i].id
  {
    if lookupFault.Some? then Next(lookupFault.value)
    else if |photos| == 0 then Next(Http(416, MsgOutOfRange))
    else if photos[|photos| - 1].userID != requester then Next(Http(401, MsgInvalidUser))
    else Sent(200, Ids(photos))
  }

  /** Only the last photo's owner is checked: a requester who owns the last
      photo is shown every id, including those of photos owned by others. */
  lemma ListShowsOthersPhotos(photos: seq<Photo>, requester: ObjectId, i: nat)
    requires i < |photos| && photos[i].userID != requester
    requires photos[|photos| - 1].userID == requester
    ensures ListPhotos(photos, requester, None).Sent? && photos[i].id in ListPhotos(photos, requester, None).body
  {
    assert ListPhotos(photos, requester, None).body[i] == photos[i].id;
  }

  // ---------------------------------------------------------------------------
  // DELETE /api/gallery/:galleryID/photo/:photoID

  /** The delete handler as a function of the backend. A missing photo makes
      the handler read `userID` of null; a photo owned by someone else gives
      401 and, with `tempPhoto` unset, nothing is deleted. For the owner the
      chain goes on to S3 and the collection even after a gallery lookup
      error has been passed to `next`, so the response is that error while
      the photo is still deleted. The route's gallery id is used only for
      that lookup. A failed read of the photo is passed on, and the
      `TypeError` that follows it comes too late to be the response. */
  function DeleteSpec(photos: seq<Photo>, objects: set<string>, photoID: ObjectId, requester: ObjectId,
                      lookupFault: Option<Error>, galleryFault: Option<Error>,
                      s3Fault: Option<Error>, removeFault: Option<Error>): (e: Effect<()>)
    ensures lookupFault.Some? ==> e == Effect(Next(lookupFault.value), photos, objects)
    ensures FindById(photos, photoID).None? ==> e.photos == photos && e.objects == objects && e.response.Next?
    ensures lookupFault.None? && FindById(photos, photoID).Some? &&
            FindById(photos, photoID).value.userID != requester ==>
              e == Effect(Next(Http(401, MsgInvalidUser)), photos, objects)
    ensures e.response.Sent? ==> e.response.status == 204
  {
    if lookupFault.Some? then Effect(Next(lookupFault.value), photos, objects) else
    match FindById(photos, photoID)
    case None => Effect(Next(TypeErrorThrown("userID of null")), photos, objects)
    case Some(photo) =>
      if photo.userID != requester then Effect(Next(Http(401, MsgInvalidUser)), photos, objects)
      else if s3Fault.Some? then Effect(Next(galleryFault.GetOr(s3Fault.value)), photos, objects)
      else
        var remaining := objects - {photo.objectKey};
        if removeFault.Some? then Effect(Next(galleryFault.GetOr(removeFault.value)), photos, remaining)
        else
          Effect(if galleryFault.Some? then Next(galleryFault.value) else Sent(204, ()),
                 RemoveById(photos, photoID), remaining)
  }

  /** The delete handler, with `tempPhoto` as the handler keeps it. */
  method DeletePhoto(backend: Backend, photoID: ObjectId, requester: ObjectId, lookupFault: Option<Error>,
                     galleryFault: Option<Error>, s3Fault: Option<Error>, removeFault: Option<Error>)
    returns (resp: Response<()>)
    modifies backend
    ensures var e := DeleteSpec(old(backend.photos), old(backend.objects), photoID, requester,
                                lookupFault, galleryFault, s3Fault, removeFault);
            resp == e.response && backend.photos == e.photos && backend.objects == e.objects
  {
    if lookupFault.Some? {
      return Next(lookupFault.value);
    }
    var found := FindById(backend.photos, photoID);
    if found.None? {
      return Next(TypeErrorThrown("userID of null"));
    }
    if found.value.userID != requester {
      return Next(Http(401, MsgInvalidUser));
    }
    var tempPhoto := found.value;
    var first: Option<Error> := galleryFault;
    if s3Fault.Some? {
      return Next(first.GetOr(s3Fault.value));
    }
    backend.objects := backend.objects - {tempPhoto.objectKey};
    if removeFault.Some? {
      return Next(first.GetOr(removeFault.value));
    }
    backend.photos := RemoveById(backend.photos, photoID);
    if first.Some? {
      return Next(first.value);
    }
    return Sent(204, ());
  }

  /** The owner deleting a photo gets 204; the photo's record and its
      object are gone and every other photo stays. */
  lemma OwnerDeletes(photos: seq<Photo>, objects: set<string>, photoID: ObjectId, requester: ObjectId)
    requires FindById(photos, photoID).Some? && FindById(photos, photoID).value.userID == requester
    ensures var e := DeleteSpec(photos, objects, photoID, requester, None, None, None, None);
      && e.response == Sent(204, ())
      && |e.photos| == |photos| - 1
      && (forall p :: p in photos && p.id != photoID ==> p in e.photos)
      && e.objects == objects - {FindById(photos, photoID).value.objectKey}
      && (UniquePaths(photos) ==> UniquePaths(e.photos))
  {
    if UniquePaths(photos) {
      RemoveKeepsUnique(photos, photoID);
    }
  }

  /** A failed gallery lookup is what the owner is told, yet the photo and
      its object are deleted all the same. */
  lemma GalleryErrorStillDeletes(photos: seq<Photo>, objects: set<string>, photoID: ObjectId,
                                 requester: ObjectId, err: Error)
    requires FindById(photos, photoID).Some? && FindById(photos, photoID).value.userID == requester
    ensures var e := DeleteSpec(photos, objects, photoID, requester, None, Some(err), None, None);
      && e.response == Next(err)
      && e.photos == RemoveById(photos, photoID)
      && FindById(photos, photoID).value.objectKey !in e.objects
  {
  }
}
