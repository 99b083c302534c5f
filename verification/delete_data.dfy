/** deleteData.py: the deletion of one image record together with its Drive
    file, and the deletion of every record of a project. */
module Delete {
  import opened Wrappers
  import opened Values
  import opened DriveUtils

  /** What the remote calls inside one `delete_image` do. */
  datatype DeleteOutcome = DeleteOutcome(
    getOk: bool,        // the first `get` returns
    blobDeleteOk: bool, // `files().delete` of the record's Drive file returns
    deleteOk: bool,     // the record's `delete` returns
    readbackOk: bool)   // the verifying `get` returns

  datatype DeleteCall = DeleteCall(ok: bool, world: World)

  /** `delete_image(image_id)` on the record under `key`: a best-effort delete
      of the Drive file named by a truthy `drive_file_id`, then the record's
      delete, then a read that must find it gone. */
  function DeleteImage(w: World, key: string, o: DeleteOutcome): (r: DeleteCall)
    ensures r.ok <==> o.getOk && key in w.store && o.deleteOk && o.readbackOk
    ensures !o.getOk || key !in w.store ==> r.world == w
    ensures r.world.store.Keys ==
            if o.getOk && key in w.store && o.deleteOk then w.store.Keys - {key} else w.store.Keys
    ensures forall k :: k in r.world.store ==> r.world.store[k] == w.store[k]
  {
    if !o.getOk || key !in w.store then DeleteCall(false, w)
    else
      var fileId := Get(w.store[key], "drive_file_id", Null);
      var blobs := if Truthy(fileId) then DeleteBlob(w.blobs, fileId, o.blobDeleteOk) else w.blobs;
      if !o.deleteOk then DeleteCall(false, World(w.store, blobs))
      else DeleteCall(o.readbackOk, World(w.store - {key}, blobs))
  }

  /** After a successful delete, `get_image` finds nothing under the key. */
  lemma DeleteThenGet(w: World, key: string, o: DeleteOutcome, readOk: bool)
    requires DeleteImage(w, key, o).ok
    ensures GetImage(DeleteImage(w, key, o).world.store, key, readOk) == None
  {
  }

  /** Deleting the same record again returns False and changes nothing. */
  lemma DeleteTwice(w: World, key: string, o1: DeleteOutcome, o2: DeleteOutcome)
    requires o1.getOk && key in w.store && o1.deleteOk
    ensures var w1 := DeleteImage(w, key, o1).world;
            var r2 := DeleteImage(w1, key, o2);
            !r2.ok && r2.world == w1
  {
  }

  /** The record is deleted whether or not its Drive file could be. */
  lemma RecordDeletedRegardlessOfFile(w: World, key: string, o: DeleteOutcome)
    requires o.getOk && key in w.store && o.deleteOk
    ensures key !in DeleteImage(w, key, o).world.store
    ensures key !in DeleteImage(w, key, o.(blobDeleteOk := !o.blobDeleteOk)).world.store
  {
  }

  /** The only Drive file a delete can remove is the one a truthy
      `drive_file_id` of the record names (by its text, `str(id)`), and only
      when that call returns. */
  lemma DeleteRemovesOnlyItsFile(w: World, key: string, o: DeleteOutcome, id: string)
    requires id in w.blobs
    ensures var r := DeleteImage(w, key, o);
            id !in r.world.blobs <==>
              && o.getOk && key in w.store && o.blobDeleteOk
              && Truthy(Get(w.store[key], "drive_file_id", Null))
              && Display(Get(w.store[key], "drive_file_id", Null)) == id
  {
  }

  /** The file is removed before the record: when the record's delete then
      raises, the record survives and still names a Drive file that is gone. */
  lemma FailedDeleteLeavesDanglingRecord(w: World, key: string, o: DeleteOutcome, id: string)
    requires o.getOk && key in w.store && o.blobDeleteOk && !o.deleteOk
    requires id in w.blobs && "drive_file_id" in w.store[key] && w.store[key]["drive_file_id"] == Str(id) && id != ""
    ensures var r := DeleteImage(w, key, o);
            && !r.ok
            && key in r.world.store && r.world.store[key]["drive_file_id"] == Str(id)
            && id !in r.world.blobs
  {
  }

  // ---------------------------------------------------------------------------
  // delete_project

  /** The loop of `delete_project` over the first `|keys|` streamed records:
      the running conjunction and both stores. */
  function DeleteAll(w: World, keys: seq<string>, outs: seq<DeleteOutcome>): DeleteCall
    requires |keys| == |outs|
    decreases |keys|
  {
    if keys == [] then DeleteCall(true, w)
    else
      var n := |keys| - 1;
      var prev := DeleteAll(w, keys[..n], outs[..n]);
      var c := DeleteImage(prev.world, keys[n], outs[n]);
      DeleteCall(prev.ok && c.ok, c.world)
  }

  /** The `delete_image` call the loop makes for entry `i`. */
  function DeleteAt(w: World, keys: seq<string>, outs: seq<DeleteOutcome>, i: nat): DeleteCall
    requires |keys| == |outs| && i < |keys|
  {
    DeleteImage(DeleteAll(w, keys[..i], outs[..i]).world, keys[i], outs[i])
  }

  /** No short-circuit: the loop's result is the conjunction of every call's
      result. */
  lemma {:induction false} DeleteAllConjunction(w: World, keys: seq<string>, outs: seq<DeleteOutcome>)
    requires |keys| == |outs|
    ensures DeleteAll(w, keys, outs).ok <==> forall i :: 0 <= i < |keys| ==> DeleteAt(w, keys, outs, i).ok
    decreases |keys|
  {
    if keys != [] {
      var n := |keys| - 1;
      DeleteAllConjunction(w, keys[..n], outs[..n]);
      forall i | 0 <= i < n
        ensures DeleteAt(w, keys, outs, i) == DeleteAt(w, keys[..n], outs[..n], i)
      {
        assert keys[..n][..i] == keys[..i] && outs[..n][..i] == outs[..i];
      }
      var prev := DeleteAll(w, keys[..n], outs[..n]);
      var last := DeleteAt(w, keys, outs, n);
      assert DeleteAll(w, keys, outs) == DeleteCall(prev.ok && last.ok, last.world);
    }
  }

  /** The loop only removes records, only streamed ones, and leaves every
      remaining record as it was. */
  lemma {:induction false} DeleteAllFrame(w: World, keys: seq<string>, outs: seq<DeleteOutcome>)
    requires |keys| == |outs|
    ensures var r := DeleteAll(w, keys, outs);
            && r.world.store.Keys <= w.store.Keys
            && (forall k :: k in r.world.store ==> r.world.store[k] == w.store[k])
            && (forall k :: k in w.store && k !in keys ==> k in r.world.store)
    decreases |keys|
  {
    if keys != [] {
      var n := |keys| - 1;
      DeleteAllFrame(w, keys[..n], outs[..n]);
      forall k | k in w.store && k !in keys
        ensures k !in keys[..n]
      {
      }
    }
  }

  /** A record whose delete returned True stays deleted to the end. */
  lemma {:induction false} DeleteAllKeepsDeleted(w: World, keys: seq<string>, outs: seq<DeleteOutcome>, i: nat)
    requires |keys| == |outs| && i < |keys| && DeleteAt(w, keys, outs, i).ok
    ensures keys[i] !in DeleteAll(w, keys, outs).world.store
    decreases |keys|
  {
    var n := |keys| - 1;
    if i < n {
      assert keys[..n][..i] == keys[..i] && outs[..n][..i] == outs[..i];
      assert DeleteAt(w, keys, outs, i) == DeleteAt(w, keys[..n], outs[..n], i);
      DeleteAllKeepsDeleted(w, keys[..n], outs[..n], i);
    }
  }

  /** When the stream delivered every record of the project and every
      delete returned True, no record of the project is left. */
  lemma DeleteAllClearsProject(w: World, project: string, keys: seq<string>, outs: seq<DeleteOutcome>)
    requires |outs| == |keys| && IsProjectStream(w.store, project, keys, true)
    requires forall i :: 0 <= i < |keys| ==> DeleteAt(w, keys, outs, i).ok
    ensures var store := DeleteAll(w, keys, outs).world.store;
            forall k :: k in store ==> !InProject(store[k], project)
  {
    DeleteAllFrame(w, keys, outs);
    forall i | 0 <= i < |keys|
      ensures keys[i] !in DeleteAll(w, keys, outs).world.store
    {
      DeleteAllKeepsDeleted(w, keys, outs, i);
    }
  }

  /** `delete_project(project_name)`: every record the project query streams
      is deleted in stream order; True iff the stream ended normally and
      every delete returned True, in which case no record of the project is
      left. */
  method DeleteProject(w: World, project: string, keys: seq<string>, complete: bool, outs: seq<DeleteOutcome>)
    returns (ok: bool, w': World)
    requires |outs| == |keys| && IsProjectStream(w.store, project, keys, complete)
    ensures var r := DeleteAll(w, keys, outs); ok == (complete && r.ok) && w' == r.world
    ensures ok <==> complete && forall i :: 0 <= i < |keys| ==> DeleteAt(w, keys, outs, i).ok
    ensures w'.store.Keys <= w.store.Keys
    ensures forall k :: k in w.store && !InProject(w.store[k], project) ==> k in w'.store && w'.store[k] == w.store[k]
    ensures ok ==> forall k :: k in w'.store ==> !InProject(w'.store[k], project)
  {
    ok, w' := true, w;
    var i := 0;
    while i < |keys|
      invariant 0 <= i <= |keys|
      invariant DeleteCall(ok, w') == DeleteAll(w, keys[..i], outs[..i])
    {
      var c := DeleteImage(w', keys[i], outs[i]);
      if !c.ok {
        ok := false;
      }
      w' := c.world;
      assert keys[..i + 1][..i] == keys[..i] && outs[..i + 1][..i] == outs[..i];
      i := i + 1;
    }
    assert keys[..i] == keys && outs[..i] == outs;
    DeleteAllConjunction(w, keys, outs);
    DeleteAllFrame(w, keys, outs);
    if ok && complete {
      DeleteAllClearsProject(w, project, keys, outs);
    }
    ok := ok && complete;
  }
}
