# move-over, modelled in Dafny

move-over is a set of Python scripts that keep an image dataset in two
places at once. The image files live in a Google Drive folder named
`images`. One metadata record per image lives in the Firestore collection
`images`, keyed by `str(id)`. A record holds the Drive url and file id, the
original file name, the integer id, the labels, the project, and the
creation and update timestamps. The scripts:

- ingest a staging directory: allocate ids, upload, and insert records;
- update one record or a whole project, optionally replacing the image;
- delete one record or a whole project, together with the Drive files;
- download images and their metadata to local files;
- list Drive as a tree of folders.

The model treats both remote stores as values:

- `World(store, blobs)` holds the record store (key to document) and the
  Drive files (file id to blob).
- Each script's operation is a pure function from the old world to its
  result and the new world.
- Every remote call that may fail is decided by an outcome parameter, for
  example `UploadOutcome`, `InsertOutcome`, `UpdateOutcome`,
  `DeleteOutcome` and `DownloadOutcome`. The model covers every
  combination of successes and failures, including the half-done ones. One
  example: a file created in Drive whose sharing step then raised.
- The loops are folds defined from the end (`Run`, `UpdateAll`,
  `DeleteAll`, `DownloadAll`). The methods that run them carry the fold as
  their loop invariant.
- The local file system of the downloads is a map from path to what was
  written there.

Modules, one per source file:

- `Wrappers`: `Option`.
- `Text`: the Python string operations the scripts use.
- `Values`: documents, the merge update, Firestore's value order, the
  project query.
- `DriveUtils`: `drive_utils.py`.
- `Ingest`: `uploadData.py`.
- `Update`: `updateData.py`.
- `Delete`: `deleteData.py`.
- `Download`: `downloadData.py`.
- `DriveTree`: `driveController/listDriveTree.py`.

Where the documentation and the code disagree, the model follows the code:

- `update_image` sets `original_name` to the base name of the new Drive url,
  not of the local path. Line 131 reads `update_data['image']` after line
  129 has overwritten it.
- A `.jpeg` file is uploaded with MIME type `image/png`. Only `.jpg`
  selects `image/jpeg`.
- `insert_image` returns True even when its verifying read does not find
  the document. Only an exception makes it return False.
- The caller's patch dictionary is mutated. `update_project` passes the same
  dictionary to every call, so after one replacement the next record's
  "local path" is the previous record's Drive url (`NextCallSeesPreviousUrl`).
- `download_image_and_metadata` names the image file
  `{id}_{original_name}`. If the stored name is `metadata.json`, the
  metadata file then overwrites the image (`FilenamesClash`).

## Model

| member | source | states |
|---|---|---|
| Text.IntToStringInjective | uploadData.py:40 | distinct ids give distinct record keys `str(id)` (via `int(str(i)) == i`) |
| Text.BasenameIsLastComponent | updateData.py:113 | `os.path.basename` is the longest suffix holding no '/', and it starts right after a '/' or at the start |
| Text.JoinEnds | uploadData.py:78 | `os.path.join(a, b)` ends with `b`, and begins with `a` unless `b` is absolute |
| Values.Merge | updateData.py:137 | a merge update keeps every unpatched field, takes every patched one, and turns the timestamp sentinel into the commit time |
| Values.Limit | drive_utils.py:89 | `limit(n)` returns a prefix of the results of length `n`, or all of them when there are fewer |
| DriveUtils.CheckFolderExists | drive_utils.py:16-24 | None iff no listed entry is a non-trashed folder of that name; otherwise the id of the first such entry |
| DriveUtils.MimeType | drive_utils.py:40 | `image/jpeg` iff the lower-cased path ends in `.jpg`, otherwise `image/png` |
| DriveUtils.JpegUploadedAsPng | drive_utils.py:40 | a `.jpeg` file is uploaded as `image/png` |
| DriveUtils.UploadImageToDrive | drive_utils.py:26-68 | a result iff list, create and share all succeed, and then it is the new file's id and link; a failed lookup or create adds no file |
| DriveUtils.UploadCreatesBlob | drive_utils.py:29-56 | once `create` returns, the file exists under the destination name, in the `images` folder, with the path's MIME type, even if sharing then fails; other files are untouched |
| DriveUtils.DeleteBlob | deleteData.py:46-51 | a Drive delete that returns removes the file whose id is the text `str(id)` of the stored id (the client sends non-strings as text); one that raises changes nothing; no other file changes |
| DriveUtils.GetImage | drive_utils.py:70-82 | the document iff the read returns and the key exists, else None |
| DriveUtils.ListImages | drive_utils.py:84-94 | at most `limit` documents, all of the project when a project name is given, all with `created_at`; `[]` when the query raises |
| DriveUtils.ListImagesGrowsWithLimit | drive_utils.py:89 | a larger limit only extends the listing |
| DriveUtils.ListImagesNewestFirst | drive_utils.py:89-91 | the listing is in descending `created_at` order |
| DriveUtils.ListImagesTakesNewest | drive_utils.py:86-91 | a document of the store that has `created_at` and matches the project filter but is not returned is left out only because the limit was reached, and every returned document is at least as new |
| DriveUtils.ListImagesComplete | drive_utils.py:86-91 | with a limit covering all documents that have `created_at`, every one of them that matches the project filter is returned |
| DriveUtils.ConvertDatetime | drive_utils.py:97-100 | a timestamp becomes its RFC 3339 string; anything else is returned as is |
| DriveUtils.ConvertDatetimeIdempotent | drive_utils.py:97-100 | converting twice is converting once |
| Ingest.NextImageId | uploadData.py:7-18 | None when the query raises; otherwise the id handed out is larger than every integer id in the store |
| Ingest.AllocatorReadsTop | uploadData.py:10-13 | for the first id of the descending `id` order, the allocator returns that id plus one (`True + 1 == 2`); a top id that cannot be incremented gives None |
| Ingest.AllocatorOnEmpty | uploadData.py:14-15 | with no document carrying an id, the allocator returns 1 |
| Ingest.StoredImageIsRecord | uploadData.py:22-34 | the stored document has exactly the eight fields, the upload's url and id, a falsy label replaced by `[]`, and equal creation and update times |
| Ingest.InsertImage | uploadData.py:20-52 | True iff `set` and the verifying read both return; a failed `set` writes nothing |
| Ingest.InsertImageWrites | uploadData.py:36-49 | a `set` that returns stores the image record under `str(id)` and changes no other document, even if the read then raises |
| Ingest.InsertThenAllocate | uploadData.py:7-49 | an inserted record is found by `get_image`, and the allocator then hands out a larger id |
| Ingest.Step | uploadData.py:76-104 | an image file adds `"{id}_{file}"` to the uploads, a non-image adds nothing; the counter advances iff upload and insert both succeed |
| Ingest.StepFrame | uploadData.py:76-104 | one iteration writes no document except `str(current_id)`, deletes none, and removes no Drive file |
| Ingest.StepRecord | uploadData.py:84-100 | a file whose upload and insert succeed leaves its image record under `str(current_id)` |
| Ingest.RunCounter | uploadData.py:98-100 | the counter advances by exactly the number of files whose upload and insert both succeeded |
| Ingest.RunUploadNames | uploadData.py:76-82 | the run appends to the upload list exactly the store-independent destination names |
| Ingest.UploadNameAt | uploadData.py:81 | image entry `k` is uploaded at the position counting the image entries before it, under the id the counter holds then |
| Ingest.RunUploads | uploadData.py:76-82 | only image files are uploaded, each once, in listing order, under `"{id}_{file}"` with the id current at that point |
| Ingest.RunKeepsAt | uploadData.py:76-105 | a file whose upload and insert succeeded keeps its record under its own id to the end of the run |
| Ingest.RunKeepsSuccesses | uploadData.py:76-105 | no rollback: every success of the run is still stored when the run ends |
| Ingest.RunFrame | uploadData.py:76-104 | the run writes only keys `str(m)` for ids `m` between the start and the final counter, and never removes a record or a Drive file |
| Ingest.RerunUsesFreshIds | uploadData.py:54-105 | no deduplication: after a run that stored something, the allocator starts at or past the run's final counter |
| Ingest.ProcessUploadGate | uploadData.py:54-108 | False with nothing done when the allocator fails, `images/` is missing or the annotations cannot be loaded; otherwise True, with the state the loop fold describes and one upload per image file |
| Update.Commit | updateData.py:133-147 | stamps `updated_at`, merges the patch into the record only, and returns True iff update and read-back both return |
| Update.ReplaceImage | updateData.py:108-131 | a failed upload changes no record and leaves the patch alone; a successful one commits the patch with the new url, file id and name |
| Update.UpdateImage | updateData.py:78-151 | False with nothing changed for a missing record or a failed read; True iff update and read-back return and, when the patch has `image`, it is a string and its upload succeeded; other records are untouched |
| Update.UpdateMerges | updateData.py:133-137 | without `image`: patched fields take the patch, `updated_at` the commit time, other fields keep their value, and Drive is untouched |
| Update.ReplacedPatch | updateData.py:128-134 | the patch written after a replacement carries the url, file id, base name of the url and the timestamp sentinel, over the caller's other fields |
| Update.UpdateReplacesImage | updateData.py:108-137 | after a replacement the record names the new Drive file, and `original_name` is the base name of the new url |
| Update.UpdateMutatesPatch | updateData.py:128-134 | the caller's patch is left holding the replaced fields and the sentinel |
| Update.UploadFailureWritesNothing | updateData.py:112-118 | a failed replacement upload returns False, writes no record, leaves the patch alone and removes no Drive file |
| Update.UpdateRemovesOnlyOldFile | updateData.py:120-126 | the only Drive file an update can remove is the one whose id is the text of the record's truthy `drive_file_id`, and only after a successful upload and a delete that returns |
| Update.UpdateRemovesOldFile | updateData.py:120-124 | under those conditions the old file is removed |
| Update.ReplacementUploaded | updateData.py:108-126 | a replacement upload that creates its file leaves it in Drive as `"{image_id}_{basename(path)}"`, in the `images` folder, with the path's MIME type; it is gone afterwards iff the upload succeeded and the old file's delete, naming the same id, returned |
| Update.UpdateIdempotent | updateData.py:133-137 | at the same commit time, repeating an update without `image`, with the patch the first call left, changes nothing more (a real second call stamps a later `updated_at`) |
| Update.MergeTwice | updateData.py:137 | merging the same patch twice at the same time is merging it once |
| Update.UpdateAllConjunction | updateData.py:170-177 | no short-circuit: the loop's flag is the conjunction of every call's result |
| Update.UpdateAllFrame | updateData.py:168-177 | the loop removes no record and changes none outside the streamed keys |
| Update.NextCallSeesPreviousUrl | updateData.py:171-174 | after a replacement, the shared patch's `image` is the new Drive url seen by the next call |
| Update.UpdateProject | updateData.py:153-181 | True iff the stream ends normally and every update returns True; records outside the project are unchanged |
| Delete.DeleteImage | deleteData.py:21-68 | True iff the read, the record delete and the read-back return; only the record's key is removed, and only when its delete returns |
| Delete.DeleteThenGet | deleteData.py:53-61 | after a successful delete `get_image` finds nothing |
| Delete.DeleteTwice | deleteData.py:35-40 | deleting a deleted record returns False and changes nothing |
| Delete.RecordDeletedRegardlessOfFile | deleteData.py:45-55 | the record is deleted whether or not its Drive file could be |
| Delete.DeleteRemovesOnlyItsFile | deleteData.py:42-51 | a Drive file disappears iff its id is the text of the record's truthy `drive_file_id` and that delete returns |
| Delete.FailedDeleteLeavesDanglingRecord | deleteData.py:45-54 | when the record delete raises after the file delete, the record survives naming a file that is gone |
| Delete.DeleteAllConjunction | deleteData.py:86-93 | no short-circuit: the loop's flag is the conjunction of every call's result |
| Delete.DeleteAllFrame | deleteData.py:84-93 | the loop only removes records, only streamed ones, and leaves the rest as they were |
| Delete.DeleteAllKeepsDeleted | deleteData.py:87-91 | a record whose delete returned True stays deleted to the end |
| Delete.DeleteAllClearsProject | deleteData.py:84-93 | when the stream delivered every record of the project and every delete returned True, no record of the project is left |
| Delete.DeleteProject | deleteData.py:70-97 | True iff the stream ends normally and every delete returns True, and then no record of the project is left; other records are unchanged |
| Download.DriveFileIdOutsideDrive | downloadData.py:47-50 | a url without `drive.google.com` is its own file id; a Drive url without `/d/` raises |
| Download.DriveFileIdIsPathSegment | downloadData.py:47-48 | the id of a Drive url is the run of non-'/' characters right after its first `/d/` |
| Download.FilenamesClash | downloadData.py:99-107 | the image and metadata file names coincide iff the record's `original_name` prints as `metadata.json` |
| Download.JsonValueIsPlain | downloadData.py:67-75 | the JSON written holds no timestamp object at any depth, matches `convert_datetime` at the top level, and leaves other values alone |
| Download.DownloadImageAndMetadata | downloadData.py:77-116 | True iff the record exists with a usable url and both files are written in full; nothing is written before the image file is opened |
| Download.DownloadWrites | downloadData.py:99-110 | the image file appears once opened, complete iff its transfer finished; the metadata appears only after a complete image; no other path changes |
| Download.DownloadAllConjunction | downloadData.py:143-148 | no short-circuit: the loop's flag is the conjunction of every download's result |
| Download.DownloadEach | downloadData.py:144-147 | the loop attempts every entry in order, and its flag is the conjunction of the results |
| Download.DownloadImagesByIds | downloadData.py:141-151 | True iff every listed download returns True, all into the same directory |
| Download.ProjectKeys | downloadData.py:122-128 | the streamed records are a prefix of the id-ordered query, no longer than `limit`; a stream that ends normally delivers all of the limited query (`limit` records, or every one when fewer), one that raises no more than it delivered |
| Download.DownloadProjectImages | downloadData.py:118-139 | the project's records with an id, in ascending id order and at most `limit`, are downloaded into `output_dir/project`; True iff the stream ends normally and every download returns True; True means every record of the limited query was downloaded, and without a limit every record of the project that has an id |
| DriveTree.Organize | driveController/listDriveTree.py:35-40 | the second loop keeps the set of nodes |
| DriveTree.LookupKeys | driveController/listDriveTree.py:27-32 | every input id gets a node, with no children yet |
| DriveTree.LookupLastWins | driveController/listDriveTree.py:27-32 | a repeated id's node carries the last file's name and type |
| DriveTree.OrganizeFails | driveController/listDriveTree.py:36 | the second loop raises exactly on an empty `parents` list |
| DriveTree.OrganizeBuilds | driveController/listDriveTree.py:35-40 | it keeps names and types, appends to each node the files naming it as parent, and makes the rest roots |
| DriveTree.ChildIdsAreIds | driveController/listDriveTree.py:36-38 | a node's children are exactly the ids of the files whose parent it is |
| DriveTree.RootIdsAreIds | driveController/listDriveTree.py:36-40 | the roots are exactly the ids of files whose parent is not an input id, each once |
| DriveTree.BuildTreeShape | driveController/listDriveTree.py:21-42 | `build_tree` raises iff some `parents` list is empty; otherwise nodes, children and roots are as above |
| DriveTree.BuildTreeNode | driveController/listDriveTree.py:28-32 | the node of the last file with an id has its name, and is a folder iff it has the folder MIME type |
| DriveTree.BuildTreeWellFormed | driveController/listDriveTree.py:35-40 | every root and every child names a node |
| DriveTree.EachFileOnce | driveController/listDriveTree.py:35-40 | with unique ids, each file is a root when its parent is unknown, and otherwise appears exactly once among its parent's children and nowhere else |
| DriveTree.ChildIdsOnce | driveController/listDriveTree.py:37-38 | with unique ids, a child is listed exactly once |
| DriveTree.RenderNode | driveController/listDriveTree.py:44-48 | the node's line comes first, and every line of the subtree starts with `2*indent` spaces |
| DriveTree.RenderChildren | driveController/listDriveTree.py:47-48 | each child contributes at least one line, all indented at the child's depth |
| DriveTree.RenderChildrenInOrder | driveController/listDriveTree.py:47-48 | the lines of a list of nodes are each node's rendering in turn: the block of node `k` lies between the offsets `k` and `k + 1`, opens with that node's line, and the blocks fill the output |
| DriveTree.RenderNodeListsChildren | driveController/listDriveTree.py:44-48 | `print_tree` prints the node's line, then each child's rendering one level deeper, in the order of `children`, each child opening with its own line |
| DriveTree.RenderNodeFuel | driveController/listDriveTree.py:44-48 | a rendering that fits the recursion bound is unchanged by a larger bound |
| DriveTree.DisplayDriveTree | driveController/listDriveTree.py:50-57 | the header line first, then at least one line per root; nothing when `build_tree` raises |
| DriveTree.DisplayListsRoots | driveController/listDriveTree.py:55-57 | after the header come the roots' renderings at depth 0, one after another in the order of `tree`, filling the output |

## Left out

- Credentials, client construction and the Drive and Firestore network calls are not modelled. Each call is reduced to an outcome parameter that says whether it returns or raises.
- Logging and `print` output are left out, except the tree rendering, which is modelled as the lines it prints.
- Floating-point field values are not modelled. `Value` has null, booleans, integers, strings, lists and timestamps.
- Firestore's order among strings and among lists is treated as ties (`IdLeq`, `TimeLeq`). The scripts order by `id`, compared as integers or booleans, and by `created_at`, compared as timestamps.
- Timestamps are compared by their RFC 3339 text (`TimeLeq`). That is their time order as long as every text has the one UTC format the server writes.
- DriveUtils.ListImages: documents with equal `created_at` may come in any order; Firestore breaks such ties by document key, which the model does not fix.
- DriveUtils.DeleteBlob: an id stored as a timestamp is sent as its RFC 3339 text (`Display`), whereas Python's `str()` of a datetime puts a space between date and time.
- Python's `repr` escaping inside `str(list)` is not modelled (`Display`).
- Dotted field paths in an update patch are not modelled. `Merge` treats every key as a top-level field.
- Annotation entries that are not JSON objects are not modelled. `annotations[str(id)].get` would raise mid-loop on one; annotations are a map of documents.
- Reading the staging directory is not modelled. `os.listdir` becomes the `files` parameter, and its order is arbitrary.
- The project query streams are not modelled as live queries. They are the `keys` they delivered plus a `complete` flag. A stream that raises part way makes the call return False after the delivered records were processed.
- Pagination of Drive listings is not modelled. `files().list` returns only the first page, and the listing is taken as given.
- DriveTree.RenderNode: the recursion is bounded by a fuel parameter. A listing whose parents form a cycle reachable from a root makes Python recurse until it raises; here that is None.
- Download.DownloadImageAndMetadata: a non-string `image` value is treated as a failure with no file written. A list-valued url without the Drive host would in fact open, and leave empty, an image file.
- The directory `os.makedirs` creates is not part of the local file map.
- `check_firebase_connection`, `display_drive_tree`'s listing call, and the `__main__` examples are left out. They are I/O drivers.
- updateData.py repeats `check_folder_exists` and `upload_image_to_drive` from drive_utils.py with the same code. Both are modelled once, in `DriveUtils`.
