/** uploadData.py: the id allocator, the insertion of one image record and
    the ingestion loop over the staging directory `uploadGate/images`. */
module Ingest {
  import opened Wrappers
  import opened Values
  import opened DriveUtils
  import Text

  // ---------------------------------------------------------------------------
  // get_next_image_id

  /** The ids the allocator's query sees: documents without an `id` field
      are left out by `order_by('id')`. */
  predicate HasId(store: Store, k: string) {
    k in store && "id" in store[k]
  }

  /** `v` is the first id of the query `order_by('id', DESCENDING)`. */
  ghost predicate IsTopId(store: Store, v: Value) {
    && (exists k :: HasId(store, k) && store[k]["id"] == v)
    && forall k :: HasId(store, k) ==> IdLeq(store[k]["id"], v)
  }

  /** Python's `v + 1` on the top id: ints and booleans add, every other
      type raises, which the allocator turns into None. */
  function PlusOne(v: Value): Option<int> {
    match v
    case Int(n) => Some(n + 1)
    case Bool(b) => Some(if b then 2 else 1)
    case _ => None
  }

  function IntIds(store: Store): set<int> {
    set k | k in store && "id" in store[k] && store[k]["id"].Int? :: store[k]["id"].n
  }

  lemma EmptyIfNoMember(s: set<int>)
    requires forall x :: x !in s
    ensures s == {}
  {
    assert forall x :: x in s <==> x in {};
  }

  lemma PickFrom(s: set<int>) returns (y: int)
    requires s != {}
    ensures y in s
  {
    if forall x :: x !in s {
      EmptyIfNoMember(s);
      assert false;
    } else {
      y :| y in s;
    }
  }

  lemma {:induction false} MaxExists(s: set<int>)
    requires s != {}
    ensures exists m :: m in s && forall x :: x in s ==> x <= m
    decreases |s|
  {
    var y := PickFrom(s);
    var rest := s - {y};
    if rest == {} {
      assert s == {y};
    } else {
      MaxExists(rest);
      var m :| m in rest && forall x :: x in rest ==> x <= m;
      var top := if y > m then y else m;
      forall x | x in s
        ensures x <= top
      {
        if x != y {
          assert x in rest;
        }
      }
      assert top in s;
    }
  }

  function MaxOf(s: set<int>): (m: int)
    requires s != {}
    ensures m in s && forall x :: x in s ==> x <= m
  {
    MaxExists(s);
    var m :| m in s && forall x :: x in s ==> x <= m;
    m
  }

  /** `get_next_image_id(db)`: the top id of the descending query plus one;
      1 when no document has an id; None when the query raises or the `+ 1`
      does (a top id that is a timestamp, string, array or null). */
  function NextImageId(store: Store, queryOk: bool): (r: Option<int>)
    ensures !queryOk ==> r == None
    ensures r.Some? ==> forall k :: HasId(store, k) && store[k]["id"].Int? ==> store[k]["id"].n < r.value
  {
    IntIdsComplete(store);
    if !queryOk then None
    else if forall k :: k in store ==> "id" !in store[k] then Some(1)
    else if exists k :: k in store && "id" in store[k] && TypeRank(store[k]["id"]) > 2 then None
    else if IntIds(store) != {} then Some(MaxOf(IntIds(store)) + 1)
    else if exists k :: k in store && "id" in store[k] && store[k]["id"] == Bool(true) then Some(2)
    else if exists k :: k in store && "id" in store[k] && store[k]["id"] == Bool(false) then Some(1)
    else None
  }

  lemma IntIdsComplete(store: Store)
    ensures forall k :: HasId(store, k) && store[k]["id"].Int? ==> store[k]["id"].n in IntIds(store)
  {
  }

  /** The allocator answers `top + 1` for the first id of the descending
      query, and 1 for a collection in which no document has an id. */
  lemma AllocatorReadsTop(store: Store, v: Value)
    requires IsTopId(store, v)
    ensures NextImageId(store, true) == PlusOne(v)
  {
    var k0 :| HasId(store, k0) && store[k0]["id"] == v;
    IntIdsComplete(store);
    assert !(forall k :: k in store ==> "id" !in store[k]);
    if TypeRank(v) > 2 {
      assert TypeRank(store[k0]["id"]) > 2;
    } else {
      assert forall k :: HasId(store, k) ==> TypeRank(store[k]["id"]) <= TypeRank(v);
      match v
      case Int(n) =>
        assert n in IntIds(store);
        var m := MaxOf(IntIds(store));
        var km :| HasId(store, km) && store[km]["id"].Int? && store[km]["id"].n == m;
        assert IdLeq(store[km]["id"], v);
      case Bool(b) =>
        assert forall k :: HasId(store, k) ==> !store[k]["id"].Int?;
        assert IntIds(store) == {};
        if !b {
          assert forall k :: HasId(store, k) ==> store[k]["id"] != Bool(true);
        }
      case Null =>
        assert forall k :: HasId(store, k) ==> store[k]["id"] == Null;
        assert IntIds(store) == {};
    }
  }

  lemma AllocatorOnEmpty(store: Store)
    requires forall k :: !HasId(store, k)
    ensures NextImageId(store, true) == Some(1)
  {
    forall k | k in store
      ensures "id" !in store[k]
    {
      assert !HasId(store, k);
    }
  }

  // ---------------------------------------------------------------------------
  // insert_image

  /** The `doc_data` dictionary insert_image writes; both timestamps are the
      same server-timestamp sentinel, and a falsy label becomes `[]`. */
  function ImageDoc(u: Uploaded, id: int, name: string, project: string, labels: Value): Doc {
    map[
      "image" := Str(u.url),
      "drive_file_id" := Str(u.fileId),
      "original_name" := Str(name),
      "id" := Int(id),
      "label" := if Truthy(labels) then labels else List([]),
      "project" := Str(project),
      "created_at" := ServerTimestamp,
      "updated_at" := ServerTimestamp
    ]
  }

  /** What the two Firestore calls of insert_image do. */
  datatype InsertOutcome =
    | SetFails       // `set` raises: nothing is written
    | ReadbackFails  // `set` succeeds, then the verifying `get` raises
    | Written        // `set` succeeds and the verifying `get` returns

  datatype InsertCall = InsertCall(ok: bool, store: Store)

  /** The document stored for a new image: every field of the upload, the
      id, the name, the project and the labels, created and updated at the
      same commit time. */
  predicate IsImageRecord(d: Doc, u: Uploaded, id: int, name: string, project: string, labels: Value, now: string) {
    && d.Keys == {"image", "drive_file_id", "original_name", "id", "label", "project", "created_at", "updated_at"}
    && d["image"] == Str(u.url) && d["drive_file_id"] == Str(u.fileId)
    && d["original_name"] == Str(name) && d["id"] == Int(id) && d["project"] == Str(project)
    && d["label"] == Stored(if Truthy(labels) then labels else List([]), now)
    && d["created_at"] == d["updated_at"] == Timestamp(now)
  }

  /** The document `set(doc_data)` leaves in the store at commit time `now`. */
  function StoredImage(u: Uploaded, id: int, name: string, project: string, labels: Value, now: string): Doc {
    Resolve(ImageDoc(u, id, name, project, labels), now)
  }

  lemma StoredImageIsRecord(u: Uploaded, id: int, name: string, project: string, labels: Value, now: string)
    ensures IsImageRecord(StoredImage(u, id, name, project, labels, now), u, id, name, project, labels, now)
  {
  }

  /** `insert_image(db, image_data, image_id, ...)`: writes the record under
      key `str(image_id)`. The result is True whenever the write and the
      verifying read return, whether or not the read finds the document. */
  function InsertImage(store: Store, u: Uploaded, id: int, name: string, project: string,
                       labels: Value, o: InsertOutcome, now: string): (r: InsertCall)
    ensures r.ok <==> o.Written?
    ensures o.SetFails? ==> r.store == store
  {
    match o
    case SetFails => InsertCall(false, store)
    case ReadbackFails => InsertCall(false, store[Text.IntToString(id) := StoredImage(u, id, name, project, labels, now)])
    case Written => InsertCall(true, store[Text.IntToString(id) := StoredImage(u, id, name, project, labels, now)])
  }

  /** A `set` that returns stores the image record under `str(id)` and
      touches no other document, whether or not the verifying read raises. */
  lemma InsertImageWrites(store: Store, u: Uploaded, id: int, name: string, project: string,
                          labels: Value, o: InsertOutcome, now: string)
    requires !o.SetFails?
    ensures var r := InsertImage(store, u, id, name, project, labels, o, now);
            && r.store.Keys == store.Keys + {Text.IntToString(id)}
            && IsImageRecord(r.store[Text.IntToString(id)], u, id, name, project, labels, now)
            && forall k :: k in store && k != Text.IntToString(id) ==> r.store[k] == store[k]
  {
    StoredImageIsRecord(u, id, name, project, labels, now);
  }

  /** An inserted record is found by `get_image`, and the allocator then
      hands out a larger id. */
  lemma InsertThenAllocate(store: Store, u: Uploaded, id: int, name: string, project: string,
                           labels: Value, o: InsertOutcome, now: string)
    requires !o.SetFails?
    ensures var s := InsertImage(store, u, id, name, project, labels, o, now).store;
            && GetImage(s, Text.IntToString(id), true) == Some(s[Text.IntToString(id)])
            && s[Text.IntToString(id)]["id"] == Int(id)
            && (NextImageId(s, true).Some? ==> NextImageId(s, true).value > id)
  {
    var s := InsertImage(store, u, id, name, project, labels, o, now).store;
    assert HasId(s, Text.IntToString(id));
  }

  // ---------------------------------------------------------------------------
  // process_images_from_uploadgate

  /** `image_file.lower().endswith(('.png', '.jpg', '.jpeg'))`. */
  predicate IsImageFile(f: string) {
    var l := Text.Lower(f);
    Text.EndsWith(l, ".png") || Text.EndsWith(l, ".jpg") || Text.EndsWith(l, ".jpeg")
  }

  /** `f"{current_id}_{image_file}"`. */
  function DestinationName(id: int, f: string): string {
    Text.IntToString(id) + "_" + f
  }

  /** `annotations[str(id)].get('label', [])`, or `[]` when the annotations
      have no entry for the id. */
  function LabelsFor(annotations: map<string, Doc>, id: int): Value {
    var key := Text.IntToString(id);
    if key in annotations then Get(annotations[key], "label", List([])) else List([])
  }

  /** What the remote calls for one staged file do. */
  datatype FileOutcome = FileOutcome(upload: UploadOutcome, insert: InsertOutcome)

  /** The inputs fixed for one run: the staging directory, the project, the
      loaded annotations (empty when the file is absent), the Drive entries
      the folder lookup lists, and the commit time of the writes. */
  datatype Gate = Gate(dir: string, project: string, annotations: map<string, Doc>,
                       folders: seq<DriveEntry>, now: string)

  /** The loop state: both stores, `current_id`, and the destination names
      uploaded so far. */
  datatype Batch = Batch(world: World, nextId: int, uploads: seq<string>)

  /** `os.path.join(images_dir, image_file)`. */
  function ImagePath(g: Gate, f: string): string {
    Text.Join(Text.Join(g.dir, "images"), f)
  }

  /** A staged file whose upload and insert both succeed. */
  predicate Succeeded(f: string, o: FileOutcome) {
    IsImageFile(f) && o.upload.Succeeds? && o.insert.Written?
  }

  /** The record a succeeding file leaves under key `str(id)`. */
  function RecordFor(f: string, o: FileOutcome, id: int, g: Gate): Doc
    requires o.upload.Succeeds?
  {
    StoredImage(Uploaded(o.upload.fileId, o.upload.url), id, f, g.project, LabelsFor(g.annotations, id), g.now)
  }

  /** One iteration of the loop. A file that is not an image is skipped. An
      image is uploaded as `"{current_id}_{file}"`; only when the upload and
      the insert both succeed does `current_id` advance, so a failed file
      leaves its id to the next one. */
  function Step(b: Batch, f: string, o: FileOutcome, g: Gate): (r: Batch)
    ensures r.uploads == b.uploads + (if IsImageFile(f) then [DestinationName(b.nextId, f)] else [])
    ensures r.nextId == b.nextId + (if Succeeded(f, o) then 1 else 0)
  {
    if !IsImageFile(f) then b
    else
      var dest := DestinationName(b.nextId, f);
      var up := UploadImageToDrive(b.world.blobs, g.folders, ImagePath(g, f), dest, o.upload);
      var uploads := b.uploads + [dest];
      match up.result
      case None => Batch(World(b.world.store, up.blobs), b.nextId, uploads)
      case Some(u) =>
        var ins := InsertImage(b.world.store, u, b.nextId, f, g.project,
                               LabelsFor(g.annotations, b.nextId), o.insert, g.now);
        Batch(World(ins.store, up.blobs), if ins.ok then b.nextId + 1 else b.nextId, uploads)
  }

  /** One iteration writes no document but `str(current_id)` and removes no
      blob. */
  lemma StepFrame(b: Batch, f: string, o: FileOutcome, g: Gate)
    ensures var r := Step(b, f, o, g);
            && r.world.store.Keys <= b.world.store.Keys + {Text.IntToString(b.nextId)}
            && b.world.store.Keys <= r.world.store.Keys
            && (forall k :: k in b.world.store && k != Text.IntToString(b.nextId) ==>
                  r.world.store[k] == b.world.store[k])
            && b.world.blobs.Keys <= r.world.blobs.Keys
  {
  }

  /** A file whose upload and insert succeed leaves its record under
      `str(current_id)`. */
  lemma StepRecord(b: Batch, f: string, o: FileOutcome, g: Gate)
    requires Succeeded(f, o)
    ensures Step(b, f, o, g).world.store[Text.IntToString(b.nextId)] == RecordFor(f, o, b.nextId, g)
  {
    var u := Uploaded(o.upload.fileId, o.upload.url);
    var labels := LabelsFor(g.annotations, b.nextId);
    StepInserts(b, f, o, g);
    InsertStores(b.world.store, u, b.nextId, f, g.project, labels, o.insert, g.now);
  }

  lemma StepInserts(b: Batch, f: string, o: FileOutcome, g: Gate)
    requires Succeeded(f, o)
    ensures Step(b, f, o, g).world.store ==
            InsertImage(b.world.store, Uploaded(o.upload.fileId, o.upload.url), b.nextId, f, g.project,
                        LabelsFor(g.annotations, b.nextId), o.insert, g.now).store
  {
    var up := UploadImageToDrive(b.world.blobs, g.folders, ImagePath(g, f), DestinationName(b.nextId, f), o.upload);
    assert up.result == Some(Uploaded(o.upload.fileId, o.upload.url));
  }

  lemma InsertStores(store: Store, u: Uploaded, id: int, name: string, project: string,
                     labels: Value, o: InsertOutcome, now: string)
    requires !o.SetFails?
    ensures InsertImage(store, u, id, name, project, labels, o, now).store[Text.IntToString(id)] ==
            StoredImage(u, id, name, project, labels, now)
  {
  }

  /** The loop over the first `|files|` directory entries, in listing order. */
  function Run(b: Batch, files: seq<string>, outs: seq<FileOutcome>, g: Gate): Batch
    requires |files| == |outs|
    decreases |files|
  {
    if files == [] then b
    else
      var n := |files| - 1;
      Step(Run(b, files[..n], outs[..n], g), files[n], outs[n], g)
  }

  function CountSucceeded(files: seq<string>, outs: seq<FileOutcome>): nat
    requires |files| == |outs|
    decreases |files|
  {
    if files == [] then 0
    else
      var n := |files| - 1;
      CountSucceeded(files[..n], outs[..n]) + (if Succeeded(files[n], outs[n]) then 1 else 0)
  }

  function CountImages(files: seq<string>): nat
    decreases |files|
  {
    if files == [] then 0
    else
      var n := |files| - 1;
      CountImages(files[..n]) + (if IsImageFile(files[n]) then 1 else 0)
  }

  /** The id the loop uses for entry `k`: the start plus the successes
      before it. */
  function IdAt(start: int, files: seq<string>, outs: seq<FileOutcome>, k: nat): int
    requires |files| == |outs| && k <= |files|
  {
    start + CountSucceeded(files[..k], outs[..k])
  }

  lemma {:induction false} CountSucceededMonotone(files: seq<string>, outs: seq<FileOutcome>, i: nat, j: nat)
    requires |files| == |outs| && i <= j <= |files|
    ensures CountSucceeded(files[..i], outs[..i]) <= CountSucceeded(files[..j], outs[..j])
    ensures i < j && Succeeded(files[i], outs[i]) ==>
              CountSucceeded(files[..i], outs[..i]) < CountSucceeded(files[..j], outs[..j])
    decreases j - i
  {
    if i < j {
      CountSucceededMonotone(files, outs, i, j - 1);
      assert files[..j][..j - 1] == files[..j - 1];
      assert outs[..j][..j - 1] == outs[..j - 1];
      assert files[..j][j - 1] == files[j - 1];
    }
  }

  /** `current_id` advances by exactly the number of files whose upload and
      insert both succeeded. */
  lemma {:induction false} RunCounter(b: Batch, files: seq<string>, outs: seq<FileOutcome>, g: Gate)
    requires |files| == |outs|
    ensures Run(b, files, outs, g).nextId == b.nextId + CountSucceeded(files, outs)
    decreases |files|
  {
    if files != [] {
      var n := |files| - 1;
      RunCounter(b, files[..n], outs[..n], g);
    }
  }

  /** The destination names a run starting at counter `start` uploads: one
      per image file, with the id the counter holds when the loop reaches it.
      They do not depend on either store. */
  function UploadNames(start: int, files: seq<string>, outs: seq<FileOutcome>): seq<string>
    requires |files| == |outs|
    decreases |files|
  {
    if files == [] then []
    else
      var n := |files| - 1;
      UploadNames(start, files[..n], outs[..n])
        + (if IsImageFile(files[n]) then [DestinationName(IdAt(start, files, outs, n), files[n])] else [])
  }

  /** The run appends exactly those names to the upload list. */
  lemma {:induction false} RunUploadNames(b: Batch, files: seq<string>, outs: seq<FileOutcome>, g: Gate)
    requires |files| == |outs|
    ensures Run(b, files, outs, g).uploads == b.uploads + UploadNames(b.nextId, files, outs)
    decreases |files|
  {
    if files != [] {
      var n := |files| - 1;
      RunUploadNames(b, files[..n], outs[..n], g);
      RunCounter(b, files[..n], outs[..n], g);
    }
  }

  /** Image entry `k` is at the position given by the number of image
      entries before it. */
  lemma {:induction false} UploadNameAt(start: int, files: seq<string>, outs: seq<FileOutcome>, k: nat)
    requires |files| == |outs| && k < |files| && IsImageFile(files[k])
    ensures |UploadNames(start, files, outs)| == CountImages(files)
    ensures CountImages(files[..k]) < |UploadNames(start, files, outs)|
    ensures UploadNames(start, files, outs)[CountImages(files[..k])] ==
            DestinationName(IdAt(start, files, outs, k), files[k])
    decreases |files|
  {
    var n := |files| - 1;
    var fs, os := files[..n], outs[..n];
    var i := CountImages(files[..k]);
    if k < n {
      UploadNameAt(start, fs, os, k);
      assert fs[..k] == files[..k] && os[..k] == outs[..k];
      assert fs[k] == files[k];
      assert IdAt(start, fs, os, k) == IdAt(start, files, outs, k);
    } else {
      UploadNamesLength(start, fs, os);
      assert files[..k] == fs;
    }
  }

  lemma {:induction false} UploadNamesLength(start: int, files: seq<string>, outs: seq<FileOutcome>)
    requires |files| == |outs|
    ensures |UploadNames(start, files, outs)| == CountImages(files)
    decreases |files|
  {
    if files != [] {
      var n := |files| - 1;
      UploadNamesLength(start, files[..n], outs[..n]);
    }
  }

  /** Only image files are uploaded, each exactly once and in listing order,
      under `"{id}_{file}"` with the id the counter holds when the loop
      reaches it. */
  lemma RunUploads(b: Batch, files: seq<string>, outs: seq<FileOutcome>, g: Gate)
    requires |files| == |outs|
    ensures var r := Run(b, files, outs, g);
            && |r.uploads| == |b.uploads| + CountImages(files)
            && r.uploads[..|b.uploads|] == b.uploads
            && forall k :: 0 <= k < |files| && IsImageFile(files[k]) ==>
                 && |b.uploads| + CountImages(files[..k]) < |r.uploads|
                 && r.uploads[|b.uploads| + CountImages(files[..k])] ==
                    DestinationName(IdAt(b.nextId, files, outs, k), files[k])
  {
    RunUploadNames(b, files, outs, g);
    UploadNamesLength(b.nextId, files, outs);
    var names := UploadNames(b.nextId, files, outs);
    forall k | 0 <= k < |files| && IsImageFile(files[k])
      ensures CountImages(files[..k]) < |names|
      ensures names[CountImages(files[..k])] == DestinationName(IdAt(b.nextId, files, outs, k), files[k])
    {
      UploadNameAt(b.nextId, files, outs, k);
    }
  }

  lemma {:induction false} CountImagesBound(files: seq<string>, k: nat)
    requires k < |files| && IsImageFile(files[k])
    ensures CountImages(files[..k]) < CountImages(files)
    decreases |files|
  {
    var n := |files| - 1;
    assert files[..n][..k] == files[..k] by { if k < n {} }
    if k < n {
      CountImagesBound(files[..n], k);
    } else {
      assert files[..n] == files[..k];
    }
  }

  /** A document under a key other than `str(current_id)` survives one
      iteration unchanged. */
  lemma StepKeeps(b: Batch, f: string, o: FileOutcome, g: Gate, key: string)
    requires key in b.world.store && key != Text.IntToString(b.nextId)
    ensures key in Step(b, f, o, g).world.store
    ensures Step(b, f, o, g).world.store[key] == b.world.store[key]
  {
    StepFrame(b, f, o, g);
  }

  /** A file whose upload and insert succeeded keeps its record, under its
      own id, to the end of the run, whatever later files do. */
  lemma {:induction false} RunKeepsAt(b: Batch, files: seq<string>, outs: seq<FileOutcome>, g: Gate, k: nat)
    requires |files| == |outs| && k < |files| && Succeeded(files[k], outs[k])
    ensures var r := Run(b, files, outs, g);
            var id := IdAt(b.nextId, files, outs, k);
            Text.IntToString(id) in r.world.store &&
            r.world.store[Text.IntToString(id)] == RecordFor(files[k], outs[k], id, g)
    decreases |files|
  {
    var n := |files| - 1;
    var fs, os := files[..n], outs[..n];
    var prev := Run(b, fs, os, g);
    assert Run(b, files, outs, g) == Step(prev, files[n], outs[n], g);
    RunCounter(b, fs, os, g);
    var id := IdAt(b.nextId, files, outs, k);
    if k < n {
      RunKeepsAt(b, fs, os, g, k);
      assert IdAt(b.nextId, fs, os, k) == id by {
        assert fs[..k] == files[..k] && os[..k] == outs[..k];
      }
      assert fs[k] == files[k] && os[k] == outs[k];
      assert id < prev.nextId by {
        CountSucceededMonotone(fs, os, k, n);
        assert fs[..n] == fs && os[..n] == os;
      }
      Text.IntToStringInjective(id, prev.nextId);
      StepKeeps(prev, files[n], outs[n], g, Text.IntToString(id));
    } else {
      StepRecord(prev, files[n], outs[n], g);
      StepFrame(prev, files[n], outs[n], g);
    }
  }

  /** Partial-batch durability: there is no rollback, every success of the
      run is still stored when the run ends. */
  lemma RunKeepsSuccesses(b: Batch, files: seq<string>, outs: seq<FileOutcome>, g: Gate)
    requires |files| == |outs|
    ensures var r := Run(b, files, outs, g);
            forall k :: 0 <= k < |files| && Succeeded(files[k], outs[k]) ==>
              var id := IdAt(b.nextId, files, outs, k);
              Text.IntToString(id) in r.world.store &&
              r.world.store[Text.IntToString(id)] == RecordFor(files[k], outs[k], id, g)
  {
    forall k | 0 <= k < |files| && Succeeded(files[k], outs[k]) {
      RunKeepsAt(b, files, outs, g, k);
    }
  }

  /** The run touches no document except those under `str(m)` for ids `m`
      from the start to the final counter, and it never removes a blob. */
  lemma {:induction false} RunFrame(b: Batch, files: seq<string>, outs: seq<FileOutcome>, g: Gate)
    requires |files| == |outs|
    ensures var r := Run(b, files, outs, g);
            && b.nextId <= r.nextId
            && b.world.blobs.Keys <= r.world.blobs.Keys
            && b.world.store.Keys <= r.world.store.Keys
            && (forall k :: k in r.world.store && k !in b.world.store ==>
                  exists m :: b.nextId <= m <= r.nextId && k == Text.IntToString(m))
            && (forall k :: k in b.world.store && NotWrittenBetween(k, b.nextId, r.nextId) ==>
                  r.world.store[k] == b.world.store[k])
    decreases |files|
  {
    if files != [] {
      var n := |files| - 1;
      RunFrame(b, files[..n], outs[..n], g);
    }
  }

  /** `k` is not the key `str(m)` of any id `m` from `lo` to `hi`. */
  ghost predicate NotWrittenBetween(k: string, lo: int, hi: int) {
    forall m :: lo <= m <= hi ==> k != Text.IntToString(m)
  }

  lemma {:induction false} LastSuccess(files: seq<string>, outs: seq<FileOutcome>)
    requires |files| == |outs| && CountSucceeded(files, outs) > 0
    ensures exists k :: 0 <= k < |files| && Succeeded(files[k], outs[k])
                        && CountSucceeded(files[..k], outs[..k]) + 1 == CountSucceeded(files, outs)
    decreases |files|
  {
    var n := |files| - 1;
    assert files[..n] == files[..n][..n];
    if Succeeded(files[n], outs[n]) {
      assert CountSucceeded(files[..n], outs[..n]) + 1 == CountSucceeded(files, outs);
    } else {
      LastSuccess(files[..n], outs[..n]);
      var k :| 0 <= k < n && Succeeded(files[..n][k], outs[..n][k])
                && CountSucceeded(files[..n][..k], outs[..n][..k]) + 1 == CountSucceeded(files[..n], outs[..n]);
      assert files[..n][..k] == files[..k] && outs[..n][..k] == outs[..k];
    }
  }

  /** No deduplication: after a run that stored at least one record, the
      allocator starts past every id the run used, so running the pipeline
      again over the same directory stores every file once more under new ids. */
  lemma RerunUsesFreshIds(b: Batch, files: seq<string>, outs: seq<FileOutcome>, g: Gate)
    requires |files| == |outs| && CountSucceeded(files, outs) > 0
    ensures var r := Run(b, files, outs, g);
            NextImageId(r.world.store, true).Some? ==> NextImageId(r.world.store, true).value >= r.nextId
  {
    LastSuccess(files, outs);
    var k :| 0 <= k < |files| && Succeeded(files[k], outs[k])
             && CountSucceeded(files[..k], outs[..k]) + 1 == CountSucceeded(files, outs);
    RunKeepsAt(b, files, outs, g, k);
    RunCounter(b, files, outs, g);
    var r := Run(b, files, outs, g);
    var id := IdAt(b.nextId, files, outs, k);
    assert id + 1 == r.nextId;
    var o := outs[k];
    StoredImageIsRecord(Uploaded(o.upload.fileId, o.upload.url), id, files[k], g.project,
                        LabelsFor(g.annotations, id), g.now);
    assert r.world.store[Text.IntToString(id)]["id"] == Int(id);
    assert HasId(r.world.store, Text.IntToString(id));
  }

  /** `process_images_from_uploadgate(db, project, dir)`. It fails, with no
      upload, when the allocator returns None, `images/` is missing or an
      existing `annotations.json` cannot be loaded (`annotationsOk`);
      otherwise it walks the whole listing and returns True, whatever
      happened to the individual files, keeping every record written. */
  method ProcessUploadGate(w: World, g: Gate, queryOk: bool, imagesDirExists: bool, annotationsOk: bool,
                           files: seq<string>, outcomes: seq<FileOutcome>)
    returns (ok: bool, w': World, uploads: seq<string>)
    requires |outcomes| == |files|
    ensures ok <==> NextImageId(w.store, queryOk).Some? && imagesDirExists && annotationsOk
    ensures !ok ==> w' == w && uploads == []
    ensures ok ==> var r := Run(Batch(w, NextImageId(w.store, queryOk).value, []), files, outcomes, g);
                   w' == r.world && uploads == r.uploads
    ensures ok ==> |uploads| == CountImages(files)
  {
    var start := NextImageId(w.store, queryOk);
    if start.None? || !imagesDirExists || !annotationsOk {
      return false, w, [];
    }
    var currentId := start.value;
    var store, blobs := w.store, w.blobs;
    uploads := [];
    var i := 0;
    while i < |files|
      invariant 0 <= i <= |files|
      invariant Batch(World(store, blobs), currentId, uploads)
                == Run(Batch(w, start.value, []), files[..i], outcomes[..i], g)
    {
      var f := files[i];
      if IsImageFile(f) {
        var dest := DestinationName(currentId, f);
        var up := UploadImageToDrive(blobs, g.folders, ImagePath(g, f), dest, outcomes[i].upload);
        blobs := up.blobs;
        uploads := uploads + [dest];
        if up.result.Some? {
          var labels := LabelsFor(g.annotations, currentId);
          var ins := InsertImage(store, up.result.value, currentId, f, g.project, labels, outcomes[i].insert, g.now);
          store := ins.store;
          if ins.ok {
            currentId := currentId + 1;
          }
        }
      }
      assert files[..i + 1][..i] == files[..i] && outcomes[..i + 1][..i] == outcomes[..i];
      i := i + 1;
    }
    assert files[..i] == files && outcomes[..i] == outcomes;
    RunUploads(Batch(w, start.value, []), files, outcomes, g);
    return true, World(store, blobs), uploads;
  }
}
