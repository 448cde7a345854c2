/** The photo schema of model/photo.js: six required paths, three of them
    under unique indexes, and a creation time that defaults to the clock.
    The collection is a sequence of stored photos in natural order. */
module PhotoModel {
  import opened Common
  import opened Http

  /** The fields a new photo document is built from, before validation. */
  datatype PhotoFields = PhotoFields(
    name: Option<string>,
    desc: Option<string>,
    userID: Option<ObjectId>,
    galleryID: Option<string>,
    imageURI: Option<string>,
    objectKey: Option<string>,
    created: Option<Time>)

  /** A stored photo: every required path is present. */
  datatype Photo = Photo(
    id: ObjectId,
    name: string,
    desc: string,
    userID: ObjectId,
    galleryID: string,
    imageURI: string,
    objectKey: string,
    created: Time)

  /** What an insert leaves: the collection and the saved photo or the
      error the save rejected with. */
  datatype Insertion = Insertion(photos: seq<Photo>, result: Result<Photo, Error>)

  /** The required paths that fail validation. A required string fails when
      absent or empty; a required ObjectId only when absent. */
  function MissingPaths(f: PhotoFields): (paths: set<string>)
    ensures "name" in paths <==> !Truthy(f.name)
    ensures "desc" in paths <==> !Truthy(f.desc)
    ensures "userID" in paths <==> f.userID.None?
    ensures "galleryID" in paths <==> !Truthy(f.galleryID)
    ensures "imageURI" in paths <==> !Truthy(f.imageURI)
    ensures "objectKey" in paths <==> !Truthy(f.objectKey)
    ensures paths <= {"name", "desc", "userID", "galleryID", "imageURI", "objectKey"}
  {
    (if Truthy(f.name) then {} else {"name"}) +
    (if Truthy(f.desc) then {} else {"desc"}) +
    (if f.userID.Some? then {} else {"userID"}) +
    (if Truthy(f.galleryID) then {} else {"galleryID"}) +
    (if Truthy(f.imageURI) then {} else {"imageURI"}) +
    (if Truthy(f.objectKey) then {} else {"objectKey"})
  }

  /** The value a document literal gives a key, `undefined` when absent. */
  function Field(doc: map<string, Option<string>>, key: string): Option<string> {
    if key in doc then doc[key] else None
  }

  /** `new Photo(doc)` in strict mode: only the schema's paths are kept,
      keys the schema does not declare are dropped. */
  function FromDocument(doc: map<string, Option<string>>): (f: PhotoFields)
    ensures f.name == Field(doc, "name") && f.desc == Field(doc, "desc")
    ensures f.userID == Field(doc, "userID") && f.galleryID == Field(doc, "galleryID")
    ensures f.imageURI == Field(doc, "imageURI") && f.objectKey == Field(doc, "objectKey")
    ensures f.created == None
  {
    PhotoFields(Field(doc, "name"), Field(doc, "desc"), Field(doc, "userID"), Field(doc, "galleryID"),
                Field(doc, "imageURI"), Field(doc, "objectKey"), None)
  }

  /** Two photos collide on one of the unique indexes. */
  predicate Conflict(p: Photo, q: Photo) {
    p.galleryID == q.galleryID || p.imageURI == q.imageURI || p.objectKey == q.objectKey
  }

  /** The collection respects the unique indexes on `galleryID`, `imageURI`
      and `objectKey`. */
  predicate UniquePaths(photos: seq<Photo>) {
    forall i, j :: 0 <= i < j < |photos| ==> !Conflict(photos[i], photos[j])
  }

  /** The photo a valid set of fields becomes; `created` defaults to the
      clock's `now`. */
  function Build(id: ObjectId, f: PhotoFields, now: Time): (p: Photo)
    requires MissingPaths(f) == {}
    ensures Some(p.name) == f.name && Some(p.desc) == f.desc && Some(p.userID) == f.userID
    ensures Some(p.galleryID) == f.galleryID && Some(p.imageURI) == f.imageURI && Some(p.objectKey) == f.objectKey
    ensures p.id == id && p.created == f.created.GetOr(now)
  {
    Photo(id, f.name.value, f.desc.value, f.userID.value, f.galleryID.value,
          f.imageURI.value, f.objectKey.value, f.created.GetOr(now))
  }

  /** `new Photo(f).save()`: validation, then the unique indexes. */
  function Insert(photos: seq<Photo>, id: ObjectId, f: PhotoFields, now: Time): (r: Insertion)
    ensures MissingPaths(f) != {} ==> r == Insertion(photos, Failure(Validation(MissingPaths(f))))
    ensures r.result.Success? <==>
              MissingPaths(f) == {} && forall i :: 0 <= i < |photos| ==> !Conflict(photos[i], Build(id, f, now))
    ensures r.result.Success? ==> r.result.value == Build(id, f, now) && r.photos == photos + [r.result.value]
    ensures r.result.Failure? ==> r.photos == photos
    ensures UniquePaths(photos) ==> UniquePaths(r.photos)
  {
    var missing := MissingPaths(f);
    if missing != {} then Insertion(photos, Failure(Validation(missing)))
    else
      var p := Build(id, f, now);
      if exists i :: 0 <= i < |photos| && Conflict(photos[i], p) then Insertion(photos, Failure(DuplicateKey))
      else Insertion(photos + [p], Success(p))
  }

  /** A gallery holds at most one photo: a second photo naming a gallery
      that already has one is refused with the duplicate-key error. */
  lemma OnePhotoPerGallery(photos: seq<Photo>, i: nat, id: ObjectId, f: PhotoFields, now: Time)
    requires i < |photos| && MissingPaths(f) == {} && f.galleryID == Some(photos[i].galleryID)
    ensures Insert(photos, id, f, now) == Insertion(photos, Failure(DuplicateKey))
  {
    assert Conflict(photos[i], Build(id, f, now));
  }

  /** The same holds for a repeated image URI or object key. */
  lemma DuplicateLocationRejected(photos: seq<Photo>, i: nat, id: ObjectId, f: PhotoFields, now: Time)
    requires i < |photos| && MissingPaths(f) == {}
    requires f.imageURI == Some(photos[i].imageURI) || f.objectKey == Some(photos[i].objectKey)
    ensures Insert(photos, id, f, now) == Insertion(photos, Failure(DuplicateKey))
  {
    assert Conflict(photos[i], Build(id, f, now));
  }

  /** The position of the first photo with a given id. */
  function IndexOf(photos: seq<Photo>, id: ObjectId): (r: Option<nat>)
    ensures r.Some? ==> r.value < |photos| && photos[r.value].id == id &&
                        forall k :: 0 <= k < r.value ==> photos[k].id != id
    ensures r.None? <==> forall k :: 0 <= k < |photos| ==> photos[k].id != id
    decreases |photos|
  {
    if photos == [] then None
    else if photos[0].id == id then Some(0)
    else
      match IndexOf(photos[1..], id)
      case None => None
      case Some(k) => Some(k + 1)
  }

  /** `Photo.findById(id)`: the first photo with that id. */
  function FindById(photos: seq<Photo>, id: ObjectId): (r: Option<Photo>)
    ensures r.Some? ==> r.value in photos && r.value.id == id
    ensures r.None? <==> forall i :: 0 <= i < |photos| ==> photos[i].id != id
  {
    match IndexOf(photos, id)
    case None => None
    case Some(k) => Some(photos[k])
  }

  /** `Photo.findByIdAndRemove(id)`: the collection without the first photo
      with that id. */
  function RemoveById(photos: seq<Photo>, id: ObjectId): (r: seq<Photo>)
    ensures FindById(photos, id).None? ==> r == photos
    ensures FindById(photos, id).Some? ==> |r| == |photos| - 1
    ensures forall p :: p in r ==> p in photos
    ensures forall p :: p in photos && p.id != id ==> p in r
  {
    match IndexOf(photos, id)
    case None => photos
    case Some(k) =>
      assert photos == photos[..k] + [photos[k]] + photos[k + 1..];
      photos[..k] + photos[k + 1..]
  }

  /** Dropping one photo keeps the unique indexes intact. */
  lemma DropKeepsUnique(photos: seq<Photo>, k: nat)
    requires UniquePaths(photos) && k < |photos|
    ensures UniquePaths(photos[..k] + photos[k + 1..])
  {
    var r := photos[..k] + photos[k + 1..];
    forall i, j | 0 <= i < j < |r|
      ensures !Conflict(r[i], r[j])
    {
      var i', j' := if i < k then i else i + 1, if j < k then j else j + 1;
      assert r[i] == photos[i'] && r[j] == photos[j'];
    }
  }

  /** Removing a photo keeps the unique indexes intact. */
  lemma RemoveKeepsUnique(photos: seq<Photo>, id: ObjectId)
    requires UniquePaths(photos)
    ensures UniquePaths(RemoveById(photos, id))
  {
    if IndexOf(photos, id).Some? {
      DropKeepsUnique(photos, IndexOf(photos, id).value);
    }
  }
}
