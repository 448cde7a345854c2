/** The gallery schema of model/gallery.js: three required paths, a
    required creation time with a default, and no unique index. */
module GalleryModel {
  import opened Common
  import opened Http

  /** The fields a new gallery document is built from, before validation. */
  datatype GalleryFields = GalleryFields(
    galleryName: Option<string>,
    description: Option<string>,
    userID: Option<ObjectId>,
    created: Option<Time>)

  /** A stored gallery. */
  datatype Gallery = Gallery(
    id: ObjectId,
    galleryName: string,
    description: string,
    userID: ObjectId,
    created: Time)

  datatype Insertion = Insertion(galleries: seq<Gallery>, result: Result<Gallery, Error>)

  /** The required paths that fail validation. `created` is never among
      them: when absent it takes its default before validation runs. */
  function MissingPaths(f: GalleryFields): (paths: set<string>)
    ensures "galleryName" in paths <==> !Truthy(f.galleryName)
    ensures "description" in paths <==> !Truthy(f.description)
    ensures "userID" in paths <==> f.userID.None?
    ensures paths <= {"galleryName", "description", "userID"}
  {
    (if Truthy(f.galleryName) then {} else {"galleryName"}) +
    (if Truthy(f.description) then {} else {"description"}) +
    (if f.userID.Some? then {} else {"userID"})
  }

  /** `new Gallery(f).save()`: validation only; the new gallery is appended
      with `created` defaulting to the clock's `now`. */
  function Insert(galleries: seq<Gallery>, id: ObjectId, f: GalleryFields, now: Time): (r: Insertion)
    ensures r.result.Success? <==> MissingPaths(f) == {}
    ensures r.result.Failure? ==> r == Insertion(galleries, Failure(Validation(MissingPaths(f))))
    ensures r.result.Success? ==>
              && r.galleries == galleries + [r.result.value]
              && r.result.value.id == id
              && Some(r.result.value.galleryName) == f.galleryName
              && Some(r.result.value.description) == f.description
              && Some(r.result.value.userID) == f.userID
              && r.result.value.created == f.created.GetOr(now)
  {
    var missing := MissingPaths(f);
    if missing != {} then Insertion(galleries, Failure(Validation(missing)))
    else
      var g := Gallery(id, f.galleryName.value, f.description.value, f.userID.value, f.created.GetOr(now));
      Insertion(galleries + [g], Success(g))
  }

  /** Without a unique index, the same fields can be saved twice and the
      collection then holds two galleries that differ only in their ids. */
  lemma DuplicatesAllowed(galleries: seq<Gallery>, id1: ObjectId, id2: ObjectId, f: GalleryFields, now: Time)
    requires MissingPaths(f) == {}
    ensures var first := Insert(galleries, id1, f, now);
            var second := Insert(first.galleries, id2, f, now);
            && second.result.Success?
            && |second.galleries| == |galleries| + 2
            && second.galleries[|galleries|] == second.galleries[|galleries| + 1].(id := id1)
  {
  }
}
