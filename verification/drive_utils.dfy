/** The Drive and Firestore helpers of drive_utils.py: the folder lookup, the
    upload of one image, the single-record lookup, the filtered listing and
    the datetime conversion used when metadata is written as JSON. */
module DriveUtils {
  import opened Wrappers
  import opened Values
  import Text

  const FolderMime := "application/vnd.google-apps.folder"

  /** The Drive folder every image is uploaded into. */
  const ImagesFolder := "images"

  /** One entry of a Drive `files().list` response. */
  datatype DriveEntry = DriveEntry(id: string, name: string, mimeType: string, trashed: bool)

  // ---------------------------------------------------------------------------
  // check_folder_exists

  /** The query `name='<name>' and mimeType='<folder>' and trashed=false`. */
  predicate IsFolderNamed(e: DriveEntry, name: string) {
    e.name == name && e.mimeType == FolderMime && !e.trashed
  }

  /** Index of the first entry at or after `i` that the folder query matches. */
  function FirstFolderFrom(listing: seq<DriveEntry>, name: string, i: nat): (r: Option<nat>)
    ensures r.Some? ==> i <= r.value < |listing| && IsFolderNamed(listing[r.value], name)
    ensures r.Some? ==> forall j :: i <= j < r.value ==> !IsFolderNamed(listing[j], name)
    ensures r.None? ==> forall j :: i <= j < |listing| ==> !IsFolderNamed(listing[j], name)
    decreases |listing| - i
  {
    if i >= |listing| then None
    else if IsFolderNamed(listing[i], name) then Some(i)
    else FirstFolderFrom(listing, name, i + 1)
  }

  /** `check_folder_exists(name)` over the entries the server lists, in the
      server's order: the id of the first matching folder, or None. */
  function CheckFolderExists(listing: seq<DriveEntry>, name: string): (r: Option<string>)
    ensures r.None? <==> forall i :: 0 <= i < |listing| ==> !IsFolderNamed(listing[i], name)
    ensures r.Some? ==>
              exists i :: 0 <= i < |listing| && IsFolderNamed(listing[i], name) && listing[i].id == r.value
                          && forall j :: 0 <= j < i ==> !IsFolderNamed(listing[j], name)
  {
    match FirstFolderFrom(listing, name, 0)
    case None => None
    case Some(i) => Some(listing[i].id)
  }

  // ---------------------------------------------------------------------------
  // upload_image_to_drive

  /** The MIME type given to an upload, chosen from the local path. */
  function MimeType(path: string): (m: string)
    ensures m == "image/jpeg" <==> Text.EndsWith(Text.Lower(path), ".jpg")
    ensures m == "image/jpeg" || m == "image/png"
  {
    if Text.EndsWith(Text.Lower(path), ".jpg") then "image/jpeg" else "image/png"
  }

  /** A `.jpeg` file is not matched by the `.jpg` test and is sent as PNG. */
  lemma JpegUploadedAsPng(path: string)
    requires Text.EndsWith(Text.Lower(path), ".jpeg")
    ensures MimeType(path) == "image/png"
  {
    var s := Text.Lower(path);
    assert s[|s| - 5..][3] == s[|s| - 2] == 'e';
    assert |s| >= 4 ==> s[|s| - 4..][2] == s[|s| - 2];
  }

  /** What the remote calls inside one upload do. */
  datatype UploadOutcome =
    | ListFails                              // the folder lookup raises
    | CreateFails                            // `files().create` raises
    | ShareFails(fileId: string)             // the file is created, then `permissions().create` raises
    | Succeeds(fileId: string, url: string)  // created and shared; `url` is its webViewLink

  /** The `{'file_id', 'url'}` dictionary of a successful upload. */
  datatype Uploaded = Uploaded(fileId: string, url: string)

  /** The function's return value and the blob store after the call. */
  datatype UploadCall = UploadCall(result: Option<Uploaded>, blobs: map<string, Blob>)

  /** `upload_image_to_drive(path, dest)`: creates `dest` in the `images`
      folder with the path's MIME type, then shares it. Any failure returns
      None, but a file created before the sharing step failed stays in Drive. */
  function UploadImageToDrive(blobs: map<string, Blob>, listing: seq<DriveEntry>, path: string,
                              dest: string, o: UploadOutcome): (r: UploadCall)
    ensures r.result.Some? <==> o.Succeeds?
    ensures r.result.Some? ==> r.result.value == Uploaded(o.fileId, o.url)
    ensures o.ListFails? || o.CreateFails? ==> r.blobs == blobs
  {
    var created := Blob(dest, MimeType(path), CheckFolderExists(listing, ImagesFolder));
    match o
    case ListFails => UploadCall(None, blobs)
    case CreateFails => UploadCall(None, blobs)
    case ShareFails(id) => UploadCall(None, blobs[id := created])
    case Succeeds(id, url) => UploadCall(Some(Uploaded(id, url)), blobs[id := created])
  }

  /** Once `files().create` has returned, the file exists in Drive under
      `dest`, in the `images` folder when there is one, with the path's MIME
      type; it stays there even when the sharing step then fails. */
  lemma UploadCreatesBlob(blobs: map<string, Blob>, listing: seq<DriveEntry>, path: string,
                          dest: string, o: UploadOutcome)
    requires o.ShareFails? || o.Succeeds?
    ensures var r := UploadImageToDrive(blobs, listing, path, dest, o);
            && r.blobs.Keys == blobs.Keys + {o.fileId}
            && r.blobs[o.fileId] == Blob(dest, MimeType(path), CheckFolderExists(listing, ImagesFolder))
            && forall id :: id in blobs && id != o.fileId ==> r.blobs[id] == blobs[id]
  {
  }

  /** `drive_service.files().delete(fileId=id)` for a stored `drive_file_id`.
      The client library sends a string parameter as `str(id)`, so an id
      stored as another type names the file its text spells. When the call
      returns, that file is gone; when it raises (`ok` false) nothing
      changes. */
  function DeleteBlob(blobs: map<string, Blob>, fileId: Value, ok: bool): (r: map<string, Blob>)
    ensures r.Keys <= blobs.Keys
    ensures forall id :: id in r ==> r[id] == blobs[id]
    ensures ok ==> Display(fileId) !in r
    ensures forall id :: id in blobs && id !in r ==> ok && Display(fileId) == id
  {
    if ok then blobs - {Display(fileId)} else blobs
  }

  // ---------------------------------------------------------------------------
  // get_image and list_images

  /** `get_image(db, key)`: the document iff it exists and the read does not
      raise; None otherwise. */
  function GetImage(store: Store, key: string, readOk: bool): (r: Option<Doc>)
    ensures r.Some? <==> readOk && key in store
    ensures r.Some? ==> r.value == store[key]
  {
    if readOk && key in store then Some(store[key]) else None
  }

  /** `project_name` is truthy: given and not empty. */
  predicate FiltersByProject(projectName: Option<string>) {
    projectName.Some? && projectName.value != []
  }

  predicate Listed(d: Doc, projectName: Option<string>) {
    FiltersByProject(projectName) ==> InProject(d, projectName.value)
  }

  /** The documents of `order`, in order, that the project filter keeps. */
  function Select(store: Store, order: seq<string>, projectName: Option<string>): (r: seq<Doc>)
    requires forall i :: 0 <= i < |order| ==> order[i] in store
    ensures |r| <= |order|
    ensures forall i :: 0 <= i < |r| ==> Listed(r[i], projectName)
    ensures forall i :: 0 <= i < |r| ==> exists j :: 0 <= j < |order| && r[i] == store[order[j]]
  {
    if order == [] then []
    else
      var d := store[order[0]];
      (if Listed(d, projectName) then [d] else []) + Select(store, order[1..], projectName)
  }

  /** The enumeration `order_by('created_at', DESCENDING)` streams: every
      document that has a `created_at` field (the query skips the others),
      each once, newest first. */
  predicate IsCreationOrder(store: Store, order: seq<string>) {
    && IsTimeOrdered(store, order)
    && (forall i, j :: 0 <= i < j < |order| ==> order[i] != order[j])
    && (forall k :: k in store && "created_at" in store[k] ==> k in order)
  }

  /** Keys of documents that have a `created_at`, newest first. */
  predicate IsTimeOrdered(store: Store, order: seq<string>) {
    && (forall i :: 0 <= i < |order| ==> order[i] in store && "created_at" in store[order[i]])
    && (forall i, j :: 0 <= i < j < |order| ==>
          TimeLeq(store[order[j]]["created_at"], store[order[i]]["created_at"]))
  }

  /** Documents that all have a `created_at`, newest first. */
  predicate NewestFirst(docs: seq<Doc>) {
    && (forall i :: 0 <= i < |docs| ==> "created_at" in docs[i])
    && (forall i, j :: 0 <= i < j < |docs| ==> TimeLeq(docs[j]["created_at"], docs[i]["created_at"]))
  }

  /** `list_images(db, project_name, limit)`: the first `limit` documents of
      the creation-ordered enumeration, restricted to the project when
      `project_name` is truthy; `[]` when the query raises. */
  function ListImages(store: Store, projectName: Option<string>, limit: nat,
                      order: seq<string>, queryOk: bool): (r: seq<Doc>)
    requires IsCreationOrder(store, order)
    ensures |r| <= limit
    ensures forall i :: 0 <= i < |r| ==> Listed(r[i], projectName) && "created_at" in r[i]
    ensures !queryOk ==> r == []
  {
    if !queryOk then [] else
      var all := Select(store, order, projectName);
      assert forall i :: 0 <= i < |all| ==> "created_at" in all[i];
      Limit(all, limit)
  }

  /** Raising the limit only extends the listing. */
  lemma ListImagesGrowsWithLimit(store: Store, projectName: Option<string>, limit: nat,
                                 order: seq<string>, queryOk: bool)
    requires IsCreationOrder(store, order)
    ensures var shorter := ListImages(store, projectName, limit, order, queryOk);
            var longer := ListImages(store, projectName, limit + 1, order, queryOk);
            shorter == longer[..|shorter|]
  {
  }

  /** Filtering keeps the enumeration's order. */
  lemma {:induction false} SelectNewestFirst(store: Store, order: seq<string>, projectName: Option<string>)
    requires IsTimeOrdered(store, order)
    ensures NewestFirst(Select(store, order, projectName))
  {
    if order != [] {
      var rest := order[1..];
      assert IsTimeOrdered(store, rest) by {
        forall i, j | 0 <= i < j < |rest|
          ensures TimeLeq(store[rest[j]]["created_at"], store[rest[i]]["created_at"])
        {
          assert rest[i] == order[i + 1] && rest[j] == order[j + 1];
        }
      }
      SelectNewestFirst(store, rest, projectName);
      var d := store[order[0]];
      var tail := Select(store, rest, projectName);
      forall m | 0 <= m < |tail|
        ensures TimeLeq(tail[m]["created_at"], d["created_at"])
      {
        var j :| 0 <= j < |rest| && tail[m] == store[rest[j]];
        assert rest[j] == order[j + 1];
      }
    }
  }

  /** Every listed document of the enumeration is returned once the limit
      covers the whole enumeration. */
  lemma {:induction false} SelectKeepsEveryMatch(store: Store, order: seq<string>, projectName: Option<string>)
    requires forall i :: 0 <= i < |order| ==> order[i] in store
    ensures forall i :: 0 <= i < |order| && Listed(store[order[i]], projectName) ==>
              store[order[i]] in Select(store, order, projectName)
  {
    if order != [] {
      SelectKeepsEveryMatch(store, order[1..], projectName);
      forall i | 0 <= i < |order| && Listed(store[order[i]], projectName)
        ensures store[order[i]] in Select(store, order, projectName)
      {
        if i > 0 {
          assert order[i] == order[1..][i - 1];
        }
      }
    }
  }

  /** The listing is newest first. */
  lemma ListImagesNewestFirst(store: Store, projectName: Option<string>, limit: nat,
                              order: seq<string>, queryOk: bool)
    requires IsCreationOrder(store, order)
    ensures NewestFirst(ListImages(store, projectName, limit, order, queryOk))
  {
    SelectNewestFirst(store, order, projectName);
  }

  /** A listed document of the store that has a `created_at` is returned, or
      else the limit is reached and every returned document is at least as
      new as it. */
  lemma ListImagesTakesNewest(store: Store, projectName: Option<string>, limit: nat, order: seq<string>)
    requires IsCreationOrder(store, order)
    ensures var r := ListImages(store, projectName, limit, order, true);
            forall k :: k in store && "created_at" in store[k] && Listed(store[k], projectName) && store[k] !in r ==>
              |r| == limit && forall i :: 0 <= i < |r| ==> TimeLeq(store[k]["created_at"], r[i]["created_at"])
  {
    var all := Select(store, order, projectName);
    var r := ListImages(store, projectName, limit, order, true);
    assert r == Limit(all, limit);
    SelectKeepsEveryMatch(store, order, projectName);
    SelectNewestFirst(store, order, projectName);
    forall k | k in store && "created_at" in store[k] && Listed(store[k], projectName) && store[k] !in r
      ensures |r| == limit && forall i :: 0 <= i < |r| ==> TimeLeq(store[k]["created_at"], r[i]["created_at"])
    {
      var p :| 0 <= p < |order| && order[p] == k;
      var m :| 0 <= m < |all| && all[m] == store[k];
      forall i | 0 <= i < |r|
        ensures TimeLeq(store[k]["created_at"], r[i]["created_at"])
      {
        assert r[i] == all[i];
      }
    }
  }

  /** With a limit that covers the enumeration, every listed document of the
      store that has a `created_at` is returned. */
  lemma ListImagesComplete(store: Store, projectName: Option<string>, limit: nat, order: seq<string>)
    requires IsCreationOrder(store, order)
    requires limit >= |order|
    ensures forall k :: k in store && "created_at" in store[k] && Listed(store[k], projectName) ==>
              store[k] in ListImages(store, projectName, limit, order, true)
  {
    SelectKeepsEveryMatch(store, order, projectName);
    forall k | k in store && "created_at" in store[k] && Listed(store[k], projectName)
      ensures store[k] in ListImages(store, projectName, limit, order, true)
    {
      var p :| 0 <= p < |order| && order[p] == k;
    }
  }

  // ---------------------------------------------------------------------------
  // convert_datetime

  /** `convert_datetime(obj)`: a timestamp becomes its RFC 3339 text, every
      other value is returned unchanged. */
  function ConvertDatetime(v: Value): (r: Value)
    ensures !r.Timestamp?
    ensures v.Timestamp? ==> r == Str(v.rfc3339)
    ensures !v.Timestamp? ==> r == v
  {
    match v
    case Timestamp(t) => Str(t)
    case _ => v
  }

  lemma ConvertDatetimeIdempotent(v: Value)
    ensures ConvertDatetime(ConvertDatetime(v)) == ConvertDatetime(v)
  {
  }
}
