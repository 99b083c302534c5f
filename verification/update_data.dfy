/** updateData.py: the merge update of one image record, with an optional
    replacement of its Drive file, and the update of every record of a
    project with one shared, mutated patch. */
module Update {
  import opened Wrappers
  import opened Values
  import opened DriveUtils
  import Text

  /** What the remote calls inside one `update_image` do. */
  datatype UpdateOutcome = UpdateOutcome(
    getOk: bool,           // the first `get` returns
    upload: UploadOutcome, // the replacement upload, when the patch has `image`
    blobDeleteOk: bool,    // the delete of the superseded Drive file returns
    updateOk: bool,        // `update` returns
    readbackOk: bool)      // the verifying `get` returns

  /** The result, both stores afterwards, and the patch dictionary as the
      call leaves it (the caller's dictionary is mutated in place). */
  datatype UpdateCall = UpdateCall(ok: bool, world: World, patch: Doc)

  /** `"{image_id}_{os.path.basename(path)}"`. */
  function ReplacementName(key: string, path: string): string {
    key + "_" + Text.Basename(path)
  }

  /** The patch after a successful replacement upload: the new url, the new
      file id, and the base name of the url (line 131 reads `image` after
      line 129 has overwritten it). */
  function Replaced(patch: Doc, u: Uploaded): Doc {
    patch["image" := Str(u.url)]["drive_file_id" := Str(u.fileId)]["original_name" := Str(Text.Basename(u.url))]
  }

  /** The patch as it is written: `updated_at` is the server timestamp. */
  function Stamped(patch: Doc): Doc {
    patch["updated_at" := ServerTimestamp]
  }

  /** Lines 134-147: stamp the patch, merge it into the record, read back. */
  function Commit(store: Store, blobs: map<string, Blob>, key: string, patch: Doc,
                  o: UpdateOutcome, now: string): (r: UpdateCall)
    requires key in store
    ensures r.ok <==> o.updateOk && o.readbackOk
    ensures r.patch == Stamped(patch) && r.world.blobs == blobs
    ensures r.world.store.Keys == store.Keys
    ensures forall k :: k in store && k != key ==> r.world.store[k] == store[k]
    ensures !o.updateOk ==> r.world.store == store
    ensures o.updateOk ==> r.world.store == store[key := Merge(store[key], Stamped(patch), now)]
  {
    var p := Stamped(patch);
    if !o.updateOk then UpdateCall(false, World(store, blobs), p)
    else UpdateCall(o.readbackOk, World(store[key := Merge(store[key], p, now)], blobs), p)
  }

  /** Lines 108-131 for a string path, then the commit: upload the new file,
      delete the superseded one when the record names one, patch, commit. */
  function ReplaceImage(w: World, key: string, path: string, patch: Doc, folders: seq<DriveEntry>,
                        o: UpdateOutcome, now: string): (r: UpdateCall)
    requires key in w.store
    ensures r.ok <==> o.upload.Succeeds? && o.updateOk && o.readbackOk
    ensures r.world.store.Keys == w.store.Keys
    ensures forall k :: k in w.store && k != key ==> r.world.store[k] == w.store[k]
    ensures !o.upload.Succeeds? ==> r.world.store == w.store && r.patch == patch
    ensures o.upload.Succeeds? ==>
              var p := Replaced(patch, Uploaded(o.upload.fileId, o.upload.url));
              && r.patch == Stamped(p)
              && (!o.updateOk ==> r.world.store == w.store)
              && (o.updateOk ==> r.world.store == w.store[key := Merge(w.store[key], Stamped(p), now)])
  {
    var up := UploadImageToDrive(w.blobs, folders, path, ReplacementName(key, path), o.upload);
    match up.result
    case None => UpdateCall(false, World(w.store, up.blobs), patch)
    case Some(u) =>
      var previous := Get(w.store[key], "drive_file_id", Null);
      var blobs := if Truthy(previous) then DeleteBlob(up.blobs, previous, o.blobDeleteOk) else up.blobs;
      Commit(w.store, blobs, key, Replaced(patch, u), o, now)
  }

  /** `update_image(image_id, update_data)` on the record under `key`. */
  function UpdateImage(w: World, key: string, patch: Doc, folders: seq<DriveEntry>,
                       o: UpdateOutcome, now: string): (r: UpdateCall)
    ensures !o.getOk || key !in w.store ==> r == UpdateCall(false, w, patch)
    ensures r.world.store.Keys == w.store.Keys
    ensures forall k :: k in w.store && k != key ==> r.world.store[k] == w.store[k]
    ensures r.ok <==> && o.getOk && key in w.store && o.updateOk && o.readbackOk
                      && ("image" in patch ==> patch["image"].Str? && o.upload.Succeeds?)
  {
    if !o.getOk || key !in w.store then UpdateCall(false, w, patch)
    else if "image" !in patch then Commit(w.store, w.blobs, key, patch, o, now)
    else if patch["image"].Str? then ReplaceImage(w, key, patch["image"].s, patch, folders, o, now)
    // `os.path.basename` of a non-string raises; the handler returns False
    else UpdateCall(false, w, patch)
  }

  /** Without an `image` key the update is a plain merge: patched fields take
      the patch's value, `updated_at` the commit time, every other field keeps
      its value, and Drive is not touched. */
  lemma UpdateMerges(w: World, key: string, patch: Doc, folders: seq<DriveEntry>, o: UpdateOutcome, now: string)
    requires o.getOk && key in w.store && o.updateOk && "image" !in patch
    ensures var r := UpdateImage(w, key, patch, folders, o, now);
            var d := r.world.store[key];
            && d.Keys == w.store[key].Keys + patch.Keys + {"updated_at"}
            && d["updated_at"] == Timestamp(now)
            && (forall f :: f in w.store[key] && f !in patch && f != "updated_at" ==> d[f] == w.store[key][f])
            && (forall f :: f in patch && f != "updated_at" ==> d[f] == Stored(patch[f], now))
            && r.world.blobs == w.blobs
            && r.patch == patch["updated_at" := ServerTimestamp]
  {
    var r := UpdateImage(w, key, patch, folders, o, now);
    assert r == Commit(w.store, w.blobs, key, patch, o, now);
    var p := Stamped(patch);
    assert p.Keys == patch.Keys + {"updated_at"};
    assert forall f :: f in patch && f != "updated_at" ==> p[f] == patch[f];
    assert r.world.store[key] == Merge(w.store[key], p, now);
  }

  /** The patch written after a replacement: the three replaced fields and
      the timestamp sentinel, over the caller's other fields. */
  lemma ReplacedPatch(patch: Doc, u: Uploaded)
    ensures var p := Stamped(Replaced(patch, u));
            && p.Keys == patch.Keys + {"image", "drive_file_id", "original_name", "updated_at"}
            && p["image"] == Str(u.url)
            && p["drive_file_id"] == Str(u.fileId)
            && p["original_name"] == Str(Text.Basename(u.url))
            && p["updated_at"] == ServerTimestamp
            && forall f :: f in patch && f !in {"image", "drive_file_id", "original_name", "updated_at"} ==>
                 p[f] == patch[f]
  {
  }

  /** With an `image` path whose upload succeeds, the record points at the
      new Drive file, `original_name` is the base name of the new url (not of
      the local path), and the other patched fields are merged as usual. */
  lemma UpdateReplacesImage(w: World, key: string, patch: Doc, folders: seq<DriveEntry>,
                            o: UpdateOutcome, now: string)
    requires o.getOk && key in w.store && o.updateOk
    requires "image" in patch && patch["image"].Str? && o.upload.Succeeds?
    ensures var r := UpdateImage(w, key, patch, folders, o, now);
            var d := r.world.store[key];
            && d["image"] == Str(o.upload.url)
            && d["drive_file_id"] == Str(o.upload.fileId)
            && d["original_name"] == Str(Text.Basename(o.upload.url))
            && d["updated_at"] == Timestamp(now)
            && (forall f :: f in patch && f !in {"image", "drive_file_id", "original_name", "updated_at"} ==>
                  d[f] == Stored(patch[f], now))
            && (forall f :: f in w.store[key] && f !in patch && f !in {"drive_file_id", "original_name", "updated_at"} ==>
                  d[f] == w.store[key][f])
  {
    var u := Uploaded(o.upload.fileId, o.upload.url);
    var p := Stamped(Replaced(patch, u));
    ReplacedPatch(patch, u);
    var r := UpdateImage(w, key, patch, folders, o, now);
    assert r == ReplaceImage(w, key, patch["image"].s, patch, folders, o, now);
    assert r.world.store[key] == Merge(w.store[key], p, now);
  }

  /** The patch the caller sees afterwards carries the new url, file id and
      name, and the timestamp sentinel. */
  lemma UpdateMutatesPatch(w: World, key: string, patch: Doc, folders: seq<DriveEntry>,
                           o: UpdateOutcome, now: string)
    requires o.getOk && key in w.store
    requires "image" in patch && patch["image"].Str? && o.upload.Succeeds?
    ensures UpdateImage(w, key, patch, folders, o, now).patch ==
            Stamped(Replaced(patch, Uploaded(o.upload.fileId, o.upload.url)))
  {
    var r := UpdateImage(w, key, patch, folders, o, now);
    assert r == ReplaceImage(w, key, patch["image"].s, patch, folders, o, now);
  }

  /** A failed replacement upload aborts the update: no record is written and
      the patch is left alone (a file created before the sharing step failed
      stays in Drive). */
  lemma UploadFailureWritesNothing(w: World, key: string, patch: Doc, folders: seq<DriveEntry>,
                                   o: UpdateOutcome, now: string)
    requires "image" in patch && !o.upload.Succeeds?
    ensures var r := UpdateImage(w, key, patch, folders, o, now);
            !r.ok && r.world.store == w.store && r.patch == patch && w.blobs.Keys <= r.world.blobs.Keys
  {
  }

  /** The only Drive file an update can remove is the record's previous one,
      named by the text of its `drive_file_id`: only after the replacement
      upload succeeded, only when the stored id is truthy, and only when the
      delete call returns. */
  lemma UpdateRemovesOnlyOldFile(w: World, key: string, patch: Doc, folders: seq<DriveEntry>,
                                 o: UpdateOutcome, now: string, id: string)
    requires id in w.blobs
    ensures var r := UpdateImage(w, key, patch, folders, o, now);
            id !in r.world.blobs ==>
              && o.getOk && key in w.store && "image" in patch && o.upload.Succeeds? && o.blobDeleteOk
              && Truthy(Get(w.store[key], "drive_file_id", Null))
              && Display(Get(w.store[key], "drive_file_id", Null)) == id
  {
    var r := UpdateImage(w, key, patch, folders, o, now);
    if o.getOk && key in w.store && "image" in patch && patch["image"].Str? {
      var path := patch["image"].s;
      UploadCreatesBlobOrKeeps(w.blobs, folders, path, ReplacementName(key, path), o.upload);
    }
  }

  lemma UploadCreatesBlobOrKeeps(blobs: map<string, Blob>, listing: seq<DriveEntry>, path: string,
                                 dest: string, o: UploadOutcome)
    ensures blobs.Keys <= UploadImageToDrive(blobs, listing, path, dest, o).blobs.Keys
  {
    if o.ShareFails? || o.Succeeds? {
      UploadCreatesBlob(blobs, listing, path, dest, o);
    }
  }

  /** And it does remove it when those conditions hold; were the new file to
      get the same id, the new file is the one removed. */
  lemma UpdateRemovesOldFile(w: World, key: string, patch: Doc, folders: seq<DriveEntry>,
                             o: UpdateOutcome, now: string)
    requires o.getOk && key in w.store && "image" in patch && patch["image"].Str? && o.upload.Succeeds?
    requires o.blobDeleteOk && Truthy(Get(w.store[key], "drive_file_id", Null))
    ensures Display(Get(w.store[key], "drive_file_id", Null)) !in UpdateImage(w, key, patch, folders, o, now).world.blobs
  {
  }

  /** A replacement upload that gets as far as creating the file leaves it in
      Drive as `"{image_id}_{basename(path)}"`, in the `images` folder, with
      the path's MIME type; it is missing afterwards only when the upload
      succeeded and the delete of the old file, whose id has the same text,
      removed it. */
  lemma ReplacementUploaded(w: World, key: string, patch: Doc, folders: seq<DriveEntry>,
                            o: UpdateOutcome, now: string)
    requires o.getOk && key in w.store && "image" in patch && patch["image"].Str?
    requires o.upload.ShareFails? || o.upload.Succeeds?
    ensures var r := UpdateImage(w, key, patch, folders, o, now);
            var previous := Get(w.store[key], "drive_file_id", Null);
            && (o.upload.fileId !in r.world.blobs <==>
                  o.upload.Succeeds? && o.blobDeleteOk && Truthy(previous) && Display(previous) == o.upload.fileId)
            && (o.upload.fileId in r.world.blobs ==>
                  var path := patch["image"].s;
                  r.world.blobs[o.upload.fileId] ==
                  Blob(key + "_" + Text.Basename(path), MimeType(path), CheckFolderExists(folders, ImagesFolder)))
  {
    var path := patch["image"].s;
    var r := UpdateImage(w, key, patch, folders, o, now);
    assert r == ReplaceImage(w, key, path, patch, folders, o, now);
    UploadCreatesBlob(w.blobs, folders, path, ReplacementName(key, path), o.upload);
  }

  /** A patch without `image` is idempotent: repeating the call with the
      patch the first call left behind, at the same commit time, changes
      nothing more. */
  lemma UpdateIdempotent(w: World, key: string, patch: Doc, folders: seq<DriveEntry>, o: UpdateOutcome, now: string)
    requires "image" !in patch
    ensures var r1 := UpdateImage(w, key, patch, folders, o, now);
            var r2 := UpdateImage(r1.world, key, r1.patch, folders, o, now);
            r2.world == r1.world && r2.patch == r1.patch && r2.ok == r1.ok
  {
    var r1 := UpdateImage(w, key, patch, folders, o, now);
    if o.getOk && key in w.store {
      var p := Stamped(patch);
      assert r1 == Commit(w.store, w.blobs, key, patch, o, now);
      assert Stamped(p) == p;
      var r2 := UpdateImage(r1.world, key, r1.patch, folders, o, now);
      assert r2 == Commit(r1.world.store, r1.world.blobs, key, p, o, now);
      if o.updateOk {
        var once := Merge(w.store[key], p, now);
        MergeTwice(w.store[key], p, now);
        assert r1.world.store[key := Merge(once, p, now)] == r1.world.store;
      }
    }
  }

  /** Merging the same patch twice at the same time is merging it once. */
  lemma MergeTwice(d: Doc, p: Doc, now: string)
    ensures Merge(Merge(d, p, now), p, now) == Merge(d, p, now)
  {
    var once := Merge(d, p, now);
    var twice := Merge(once, p, now);
    assert twice.Keys == once.Keys;
    forall f | f in twice
      ensures twice[f] == once[f]
    {
    }
  }

  // ---------------------------------------------------------------------------
  // update_project

  /** The loop of `update_project` over the first `|keys|` streamed records:
      the running conjunction, the stores, and the shared patch, which each
      call may have mutated for the next. */
  function UpdateAll(w: World, keys: seq<string>, patch: Doc, folders: seq<DriveEntry>,
                     outs: seq<UpdateOutcome>, now: string): UpdateCall
    requires |keys| == |outs|
    decreases |keys|
  {
    if keys == [] then UpdateCall(true, w, patch)
    else
      var n := |keys| - 1;
      var prev := UpdateAll(w, keys[..n], patch, folders, outs[..n], now);
      var c := UpdateImage(prev.world, keys[n], prev.patch, folders, outs[n], now);
      UpdateCall(prev.ok && c.ok, c.world, c.patch)
  }

  /** The `update_image` call the loop makes for entry `i`. */
  function UpdateAt(w: World, keys: seq<string>, patch: Doc, folders: seq<DriveEntry>,
                    outs: seq<UpdateOutcome>, now: string, i: nat): UpdateCall
    requires |keys| == |outs| && i < |keys|
  {
    var prev := UpdateAll(w, keys[..i], patch, folders, outs[..i], now);
    UpdateImage(prev.world, keys[i], prev.patch, folders, outs[i], now)
  }

  /** No short-circuit: the loop's result is the conjunction of every call's
      result, and every entry is attempted whatever the earlier ones did. */
  lemma {:induction false} UpdateAllConjunction(w: World, keys: seq<string>, patch: Doc, folders: seq<DriveEntry>,
                                                outs: seq<UpdateOutcome>, now: string)
    requires |keys| == |outs|
    ensures UpdateAll(w, keys, patch, folders, outs, now).ok <==>
            forall i :: 0 <= i < |keys| ==> UpdateAt(w, keys, patch, folders, outs, now, i).ok
    decreases |keys|
  {
    if keys != [] {
      var n := |keys| - 1;
      UpdateAllConjunction(w, keys[..n], patch, folders, outs[..n], now);
      forall i | 0 <= i < n
        ensures UpdateAt(w, keys, patch, folders, outs, now, i) == UpdateAt(w, keys[..n], patch, folders, outs[..n], now, i)
      {
        assert keys[..n][..i] == keys[..i] && outs[..n][..i] == outs[..i];
      }
      var prev := UpdateAll(w, keys[..n], patch, folders, outs[..n], now);
      var last := UpdateAt(w, keys, patch, folders, outs, now, n);
      assert UpdateAll(w, keys, patch, folders, outs, now) == UpdateCall(prev.ok && last.ok, last.world, last.patch);
    }
  }

  /** The loop changes no record outside the streamed keys and removes none. */
  lemma {:induction false} UpdateAllFrame(w: World, keys: seq<string>, patch: Doc, folders: seq<DriveEntry>,
                                          outs: seq<UpdateOutcome>, now: string)
    requires |keys| == |outs|
    ensures var r := UpdateAll(w, keys, patch, folders, outs, now);
            && r.world.store.Keys == w.store.Keys
            && forall k :: k in w.store && k !in keys ==> r.world.store[k] == w.store[k]
    decreases |keys|
  {
    if keys != [] {
      var n := |keys| - 1;
      UpdateAllFrame(w, keys[..n], patch, folders, outs[..n], now);
      forall k | k in w.store && k !in keys
        ensures k !in keys[..n]
      {
      }
    }
  }

  /** The mutated patch is shared: once entry `i` has replaced the image,
      the next entry's replacement upload reads the previous Drive url as
      its local path. */
  lemma NextCallSeesPreviousUrl(w: World, keys: seq<string>, patch: Doc, folders: seq<DriveEntry>,
                                outs: seq<UpdateOutcome>, now: string, i: nat)
    requires |keys| == |outs| && i + 1 < |keys|
    requires var prev := UpdateAll(w, keys[..i], patch, folders, outs[..i], now);
             && outs[i].getOk && keys[i] in prev.world.store && "image" in prev.patch
             && prev.patch["image"].Str? && outs[i].upload.Succeeds?
    ensures var next := UpdateAll(w, keys[..i + 1], patch, folders, outs[..i + 1], now);
            "image" in next.patch && next.patch["image"] == Str(outs[i].upload.url)
  {
    var prev := UpdateAll(w, keys[..i], patch, folders, outs[..i], now);
    assert keys[..i + 1][..i] == keys[..i] && outs[..i + 1][..i] == outs[..i];
    UpdateMutatesPatch(prev.world, keys[i], prev.patch, folders, outs[i], now);
    ReplacedPatch(prev.patch, Uploaded(outs[i].upload.fileId, outs[i].upload.url));
  }

  /** `update_project(project_name, update_data)`: every record the project
      query streams is updated in stream order with the same, progressively
      mutated, patch; the result is True iff the stream ended normally and
      every update returned True. */
  method UpdateProject(w: World, project: string, patch: Doc, keys: seq<string>, complete: bool,
                       folders: seq<DriveEntry>, outs: seq<UpdateOutcome>, now: string)
    returns (ok: bool, w': World, patch': Doc)
    requires |outs| == |keys| && IsProjectStream(w.store, project, keys, complete)
    ensures var r := UpdateAll(w, keys, patch, folders, outs, now);
            ok == (complete && r.ok) && w' == r.world && patch' == r.patch
    ensures ok <==> complete && forall i :: 0 <= i < |keys| ==> UpdateAt(w, keys, patch, folders, outs, now, i).ok
    ensures w'.store.Keys == w.store.Keys
    ensures forall k :: k in w.store && !InProject(w.store[k], project) ==> w'.store[k] == w.store[k]
  {
    ok, w', patch' := true, w, patch;
    var i := 0;
    while i < |keys|
      invariant 0 <= i <= |keys|
      invariant UpdateCall(ok, w', patch') == UpdateAll(w, keys[..i], patch, folders, outs[..i], now)
    {
      var c := UpdateImage(w', keys[i], patch', folders, outs[i], now);
      if !c.ok {
        ok := false;
      }
      w', patch' := c.world, c.patch;
      assert keys[..i + 1][..i] == keys[..i] && outs[..i + 1][..i] == outs[..i];
      i := i + 1;
    }
    assert keys[..i] == keys && outs[..i] == outs;
    UpdateAllConjunction(w, keys, patch, folders, outs, now);
    UpdateAllFrame(w, keys, patch, folders, outs, now);
    ok := ok && complete;
  }
}
