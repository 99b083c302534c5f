/** downloadData.py: the Drive file id read from a record's url, the local
    file names, the download of one record's image and metadata, and the
    two batch downloads. The local file system is a map from path to what
    was written there. */
module Download {
  import opened Wrappers
  import opened Values
  import Text
  import DriveUtils

  const DriveHost := "drive.google.com"

  // ---------------------------------------------------------------------------
  // The file id of download_image

  /** Lines 47-50: for a Drive url, the text between the first `/d/` and
      the next '/'; any other string is taken to be the file id itself.
      None is the IndexError of a Drive url without `/d/`. */
  function DriveFileId(url: string): Option<string> {
    if Text.Contains(url, DriveHost) then
      var parts := Text.Split(url, "/d/");
      if |parts| < 2 then None else Some(Text.Split(parts[1], "/")[0])
    else Some(url)
  }

  /** The first piece of a split is the longest prefix in which the
      separator does not start, and it stops at an occurrence or the end. */
  lemma SplitHeadStopsAtSeparator(s: string, sep: string)
    requires sep != []
    ensures var h := Text.Split(s, sep)[0];
            && |h| <= |s| && h == s[..|h|]
            && (forall k :: 0 <= k < |h| ==> !Text.OccursAt(s, sep, k))
            && (|h| == |s| || Text.OccursAt(s, sep, |h|))
  {
    Text.SplitHead(s, sep);
  }

  /** `id` is the leading path segment of `s`: the characters before the
      first '/', or all of `s` when it has none. */
  predicate IsLeadingSegment(id: string, s: string) {
    && |id| <= |s| && id == s[..|id|]
    && (forall k :: 0 <= k < |id| ==> id[k] != '/')
    && (|id| == |s| || s[|id|] == '/')
  }

  lemma SlashFreeHead(s: string)
    ensures IsLeadingSegment(Text.Split(s, "/")[0], s)
  {
    var h := Text.Split(s, "/")[0];
    SplitHeadStopsAtSeparator(s, "/");
    forall k | 0 <= k < |h|
      ensures h[k] != '/'
    {
      assert !Text.OccursAt(s, "/", k);
      assert s[k..k + 1] == [s[k]];
    }
    if |h| < |s| {
      assert s[|h|..|h| + 1] == "/";
    }
  }

  /** A leading segment of a prefix that ends at a '/' (or at the end) is
      the leading segment of the whole. */
  lemma LeadingSegmentOfPrefix(id: string, part: string, s: string)
    requires IsLeadingSegment(id, part)
    requires |part| <= |s| && part == s[..|part|]
    requires |part| == |s| || s[|part|] == '/'
    ensures IsLeadingSegment(id, s)
  {
  }

  /** The text before the first `/d/` ends where a '/' starts, or at the end. */
  lemma PieceEndsAtSlash(s: string)
    ensures var part := Text.Split(s, "/d/")[0];
            && |part| <= |s| && part == s[..|part|]
            && (|part| == |s| || s[|part|] == '/')
  {
    var part := Text.Split(s, "/d/")[0];
    SplitHeadStopsAtSeparator(s, "/d/");
    if |part| < |s| {
      assert s[|part|..|part| + 3] == "/d/";
    }
  }

  /** A url that does not name the Drive host is its own id; a Drive url
      without `/d/` has none. */
  lemma DriveFileIdOutsideDrive(url: string)
    ensures !Text.Contains(url, DriveHost) ==> DriveFileId(url) == Some(url)
    ensures Text.Contains(url, DriveHost) && Text.Find(url, "/d/").None? ==> DriveFileId(url) == None
  {
    Text.SplitSecond(url, "/d/");
  }

  /** The id of a Drive url with `/d/`: the run of non-'/' characters right
      after the first `/d/`. */
  lemma DriveFileIdIsPathSegment(url: string)
    requires Text.Contains(url, DriveHost) && Text.Find(url, "/d/").Some?
    ensures DriveFileId(url).Some?
    ensures IsLeadingSegment(DriveFileId(url).value, url[Text.Find(url, "/d/").value + 3..])
  {
    Text.SplitSecond(url, "/d/");
    var rest := url[Text.Find(url, "/d/").value + 3..];
    var part := Text.Split(rest, "/d/")[0];
    assert Text.Split(url, "/d/")[1] == part;
    PieceEndsAtSlash(rest);
    SlashFreeHead(part);
    var id := Text.Split(part, "/")[0];
    assert DriveFileId(url) == Some(id);
    LeadingSegmentOfPrefix(id, part, rest);
  }

  // ---------------------------------------------------------------------------
  // Local files

  /** What a download writes at a local path; `complete` is false when the
      write stopped part way, leaving a truncated file. */
  datatype LocalFile =
    | ImageFile(fileId: string, complete: bool)  // the media of this Drive file
    | MetadataFile(json: Doc, complete: bool)    // the record as JSON

  type Files = map<string, LocalFile>

  /** `f"{image_id}_{image_data.get('original_name', 'image.jpg')}"`. */
  function ImageFilename(key: string, d: Doc): string {
    key + "_" + Display(Get(d, "original_name", Str("image.jpg")))
  }

  /** `f"{image_id}_metadata.json"`. */
  function MetadataFilename(key: string): string {
    key + "_metadata.json"
  }

  /** The two names clash exactly when the record's `original_name` shows as
      `metadata.json`; the metadata then overwrites the image. */
  lemma FilenamesClash(key: string, d: Doc)
    ensures ImageFilename(key, d) == MetadataFilename(key) <==>
            Display(Get(d, "original_name", Str("image.jpg"))) == "metadata.json"
  {
    var shown := Display(Get(d, "original_name", Str("image.jpg")));
    if ImageFilename(key, d) == MetadataFilename(key) {
      assert (key + "_" + shown)[|key| + 1..] == shown;
      assert (key + "_metadata.json")[|key| + 1..] == "metadata.json";
    }
  }

  /** `json.dump(..., default=convert_datetime)`: every timestamp, at any
      depth, is written as its RFC 3339 text. */
  function JsonValue(v: Value): Value
    decreases v
  {
    match v
    case Timestamp(t) => Str(t)
    case List(items) => List(seq(|items|, i requires 0 <= i < |items| => JsonValue(items[i])))
    case _ => v
  }

  function JsonDoc(d: Doc): Doc {
    map k | k in d :: JsonValue(d[k])
  }

  /** A value with no timestamp anywhere in it. */
  predicate NoTimestamp(v: Value)
    decreases v
  {
    match v
    case Timestamp(_) => false
    case List(items) => forall i :: 0 <= i < |items| ==> NoTimestamp(items[i])
    case _ => true
  }

  /** The JSON form holds no timestamp object, agrees with `convert_datetime`
      at the top level, and leaves timestamp-free values alone. */
  lemma {:induction false} JsonValueIsPlain(v: Value)
    ensures NoTimestamp(JsonValue(v))
    ensures !v.List? ==> JsonValue(v) == DriveUtils.ConvertDatetime(v)
    ensures NoTimestamp(v) ==> JsonValue(v) == v
    decreases v
  {
    match v
    case List(items) =>
      var r := JsonValue(v);
      forall i | 0 <= i < |items|
        ensures NoTimestamp(r.items[i])
        ensures NoTimestamp(items[i]) ==> r.items[i] == items[i]
      {
        JsonValueIsPlain(items[i]);
      }
      if NoTimestamp(v) {
        assert r.items == items;
      }
    case _ =>
  }

  // ---------------------------------------------------------------------------
  // download_image_and_metadata

  /** What happens to one local file: `open` raises, the transfer into the
      opened file raises, or it is written in full. */
  datatype WriteOutcome = OpenFails | WriteFails | Written

  /** What the I/O and remote calls of one download do. */
  datatype DownloadOutcome = DownloadOutcome(
    dirOk: bool,              // `os.makedirs(output_dir, exist_ok=True)` returns
    getOk: bool,              // the record's `get` returns
    media: WriteOutcome,      // the image file and its chunked download
    metadata: WriteOutcome)   // the metadata file and its `json.dump`

  datatype DownloadCall = DownloadCall(ok: bool, files: Files)

  /** The Drive file a record's `image` url names, when the record has a
      non-empty string url from which an id can be read. */
  function RecordFileId(d: Doc): Option<string> {
    var url := Get(d, "image", Null);
    if !Truthy(url) || !url.Str? then None else DriveFileId(url.s)
  }

  /** The record exists and names a Drive file: the download gets as far as
      opening the image file. */
  predicate Reaches(store: Store, key: string, o: DownloadOutcome) {
    o.dirOk && o.getOk && key in store && RecordFileId(store[key]).Some?
  }

  /** `download_image_and_metadata(image_id, output_dir)` for the record
      under `key`: the image first, then, only if it arrived in full, the
      metadata. An interrupted write leaves a truncated file behind. */
  function DownloadImageAndMetadata(fs: Files, store: Store, key: string, dir: string,
                                    o: DownloadOutcome): (r: DownloadCall)
    ensures r.ok <==> Reaches(store, key, o) && o.media.Written? && o.metadata.Written?
    ensures !Reaches(store, key, o) || o.media.OpenFails? ==> r.files == fs
  {
    if !o.dirOk || !o.getOk || key !in store then DownloadCall(false, fs)
    else
      var d := store[key];
      match RecordFileId(d)
      case None => DownloadCall(false, fs)
      case Some(id) =>
        var imagePath := Text.Join(dir, ImageFilename(key, d));
        match o.media
        case OpenFails => DownloadCall(false, fs)
        case WriteFails => DownloadCall(false, fs[imagePath := ImageFile(id, false)])
        case Written =>
          var withImage := fs[imagePath := ImageFile(id, true)];
          var metaPath := Text.Join(dir, MetadataFilename(key));
          match o.metadata
          case OpenFails => DownloadCall(false, withImage)
          case WriteFails => DownloadCall(false, withImage[metaPath := MetadataFile(JsonDoc(d), false)])
          case Written => DownloadCall(true, withImage[metaPath := MetadataFile(JsonDoc(d), true)])
  }

  /** What a download leaves on disk: the image file once it could be
      opened, complete iff its transfer finished; the metadata file only
      after a complete image; no other path is touched. */
  lemma DownloadWrites(fs: Files, store: Store, key: string, dir: string, o: DownloadOutcome)
    requires Reaches(store, key, o)
    ensures var r := DownloadImageAndMetadata(fs, store, key, dir, o);
            var imagePath := Text.Join(dir, ImageFilename(key, store[key]));
            var metaPath := Text.Join(dir, MetadataFilename(key));
            var metaOpened := o.media.Written? && !o.metadata.OpenFails?;
            && r.files.Keys == fs.Keys + (if o.media.OpenFails? then {} else {imagePath})
                                       + (if metaOpened then {metaPath} else {})
            && (forall p :: p in fs && p != imagePath && p != metaPath ==> r.files[p] == fs[p])
            && (metaOpened ==> r.files[metaPath] == MetadataFile(JsonDoc(store[key]), o.metadata.Written?))
            && (!o.media.OpenFails? && (!metaOpened || imagePath != metaPath) ==>
                  r.files[imagePath] == ImageFile(RecordFileId(store[key]).value, o.media.Written?))
  {
  }

  // ---------------------------------------------------------------------------
  // download_project_images and download_images_by_ids

  /** The loop over the first `|keys|` records: the running conjunction and
      the files written so far. */
  function DownloadAll(fs: Files, store: Store, keys: seq<string>, dir: string,
                       outs: seq<DownloadOutcome>): DownloadCall
    requires |keys| == |outs|
    decreases |keys|
  {
    if keys == [] then DownloadCall(true, fs)
    else
      var n := |keys| - 1;
      var prev := DownloadAll(fs, store, keys[..n], dir, outs[..n]);
      var c := DownloadImageAndMetadata(prev.files, store, keys[n], dir, outs[n]);
      DownloadCall(prev.ok && c.ok, c.files)
  }

  /** The download the loop makes for entry `i`. */
  function DownloadAt(fs: Files, store: Store, keys: seq<string>, dir: string,
                      outs: seq<DownloadOutcome>, i: nat): DownloadCall
    requires |keys| == |outs| && i < |keys|
  {
    DownloadImageAndMetadata(DownloadAll(fs, store, keys[..i], dir, outs[..i]).files, store, keys[i], dir, outs[i])
  }

  /** No short-circuit: the loop's result is the conjunction of every
      download's result. */
  lemma {:induction false} DownloadAllConjunction(fs: Files, store: Store, keys: seq<string>, dir: string,
                                                  outs: seq<DownloadOutcome>)
    requires |keys| == |outs|
    ensures DownloadAll(fs, store, keys, dir, outs).ok <==>
            forall i :: 0 <= i < |keys| ==> DownloadAt(fs, store, keys, dir, outs, i).ok
    decreases |keys|
  {
    if keys != [] {
      var n := |keys| - 1;
      DownloadAllConjunction(fs, store, keys[..n], dir, outs[..n]);
      forall i | 0 <= i < n
        ensures DownloadAt(fs, store, keys, dir, outs, i) == DownloadAt(fs, store, keys[..n], dir, outs[..n], i)
      {
        assert keys[..n][..i] == keys[..i] && outs[..n][..i] == outs[..i];
      }
      var prev := DownloadAll(fs, store, keys[..n], dir, outs[..n]);
      var last := DownloadAt(fs, store, keys, dir, outs, n);
      assert DownloadAll(fs, store, keys, dir, outs) == DownloadCall(prev.ok && last.ok, last.files);
    }
  }

  /** The loop itself: every record is attempted, in order. */
  method DownloadEach(fs: Files, store: Store, keys: seq<string>, dir: string, outs: seq<DownloadOutcome>)
    returns (ok: bool, fs': Files)
    requires |keys| == |outs|
    ensures DownloadCall(ok, fs') == DownloadAll(fs, store, keys, dir, outs)
    ensures ok <==> forall i :: 0 <= i < |keys| ==> DownloadAt(fs, store, keys, dir, outs, i).ok
  {
    ok, fs' := true, fs;
    var i := 0;
    while i < |keys|
      invariant 0 <= i <= |keys|
      invariant DownloadCall(ok, fs') == DownloadAll(fs, store, keys[..i], dir, outs[..i])
    {
      var c := DownloadImageAndMetadata(fs', store, keys[i], dir, outs[i]);
      if !c.ok {
        ok := false;
      }
      fs' := c.files;
      assert keys[..i + 1][..i] == keys[..i] && outs[..i + 1][..i] == outs[..i];
      i := i + 1;
    }
    assert keys[..i] == keys && outs[..i] == outs;
    DownloadAllConjunction(fs, store, keys, dir, outs);
  }

  /** `download_images_by_ids(image_ids, output_dir)`: every id in turn, into
      the same directory; True iff every download returned True. */
  method DownloadImagesByIds(fs: Files, store: Store, ids: seq<string>, dir: string, outs: seq<DownloadOutcome>)
    returns (ok: bool, fs': Files)
    requires |ids| == |outs|
    ensures ok <==> forall i :: 0 <= i < |ids| ==> DownloadAt(fs, store, ids, dir, outs, i).ok
    ensures fs' == DownloadAll(fs, store, ids, dir, outs).files
  {
    ok, fs' := DownloadEach(fs, store, ids, dir, outs);
  }

  /** The query `where('project', '==', name).order_by('id')`: the project's
      documents that have an `id`, by ascending id. */
  predicate IsIdOrderedProjectQuery(store: Store, project: string, order: seq<string>) {
    && (forall i :: 0 <= i < |order| ==> order[i] in store && InProject(store[order[i]], project)
                                         && "id" in store[order[i]])
    && (forall i, j :: 0 <= i < j < |order| ==> order[i] != order[j])
    && (forall i, j :: 0 <= i < j < |order| ==> IdLeq(store[order[i]]["id"], store[order[j]]["id"]))
    && (forall k :: k in store && InProject(store[k], project) && "id" in store[k] ==> k in order)
  }

  /** The query's results: the first `limit` of the enumeration when
      `limit` is given, all of it otherwise. */
  function LimitedQuery(order: seq<string>, limit: Option<nat>): seq<string> {
    if limit.Some? then Limit(order, limit.value) else order
  }

  /** The records `download_project_images` streams: every result of the
      limited query when the stream ends normally (`complete`), only the
      first `delivered` of them when it raises part way. */
  function ProjectKeys(order: seq<string>, limit: Option<nat>, complete: bool, delivered: nat): (keys: seq<string>)
    ensures |keys| <= |order| && keys == order[..|keys|]
    ensures limit.Some? ==> |keys| <= limit.value && (|keys| == limit.value || keys == order || !complete)
    ensures limit.None? && complete ==> keys == order
    ensures !complete ==> |keys| <= delivered
  {
    var all := LimitedQuery(order, limit);
    if complete || |all| <= delivered then all else all[..delivered]
  }

  /** `download_project_images(project_name, output_dir, limit)`: the
      project's records with an id, in ascending id order and at most `limit`
      of them, each downloaded into `output_dir/project_name`; True iff the
      stream ended normally and every download returned True. A True result
      means every record of the limited query was downloaded, and without a
      limit that is every record of the project that has an id. */
  method DownloadProjectImages(fs: Files, store: Store, project: string, dir: string, limit: Option<nat>,
                               order: seq<string>, complete: bool, delivered: nat, outs: seq<DownloadOutcome>)
    returns (ok: bool, fs': Files)
    requires IsIdOrderedProjectQuery(store, project, order)
    requires |outs| == |ProjectKeys(order, limit, complete, delivered)|
    ensures var keys := ProjectKeys(order, limit, complete, delivered);
            && (ok <==> complete && forall i :: 0 <= i < |keys| ==>
                          DownloadAt(fs, store, keys, Text.Join(dir, project), outs, i).ok)
            && fs' == DownloadAll(fs, store, keys, Text.Join(dir, project), outs).files
    ensures ok ==> ProjectKeys(order, limit, complete, delivered) == LimitedQuery(order, limit)
    ensures ok && limit.None? ==>
              forall k :: k in store && InProject(store[k], project) && "id" in store[k] ==>
                k in ProjectKeys(order, limit, complete, delivered)
  {
    var keys := ProjectKeys(order, limit, complete, delivered);
    ok, fs' := DownloadEach(fs, store, keys, Text.Join(dir, project), outs);
    ok := ok && complete;
  }
}
