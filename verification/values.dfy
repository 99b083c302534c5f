/** Field values, documents and the two remote stores, as the scripts see
    them: the metadata store is a map from document key to document, and the
    blob store a map from file id to blob. */
module Values {
  import opened Wrappers
  import Text

  /** A Firestore field value (or a value loaded from JSON). Floats are not
      modelled. */
  datatype Value =
    | Null
    | Bool(b: bool)
    | Int(n: int)
    | Str(s: string)
    | List(items: seq<Value>)
      /** `firestore.SERVER_TIMESTAMP`: a sentinel the client writes and the
          server replaces by the commit time. */
    | ServerTimestamp
      /** A stored server time, carried as its RFC 3339 text. */
    | Timestamp(rfc3339: string)

  /** A document: field name to value (Python's `doc.to_dict()`). */
  type Doc = map<string, Value>

  /** The `images` collection: document key to document. */
  type Store = map<string, Doc>

  /** A file in Google Drive: its name, MIME type and parent folder. */
  datatype Blob = Blob(name: string, mimeType: string, parent: Option<string>)

  /** Both remote stores: the `images` collection and the Drive files by id. */
  datatype World = World(store: Store, blobs: map<string, Blob>)

  /** Python truthiness of a value. */
  predicate Truthy(v: Value) {
    match v
    case Null => false
    case Bool(b) => b
    case Int(n) => n != 0
    case Str(s) => s != []
    case List(items) => items != []
    case ServerTimestamp => true
    case Timestamp(_) => true
  }

  /** `d.get(field, default)`. */
  function Get(d: Doc, field: string, default: Value): Value {
    if field in d then d[field] else default
  }

  /** The value a write stores: the server-timestamp sentinel becomes the
      commit time `now`. */
  function Stored(v: Value, now: string): Value {
    if v == ServerTimestamp then Timestamp(now) else v
  }

  /** The document a write stores, field by field. */
  function Resolve(d: Doc, now: string): Doc {
    map k | k in d :: Stored(d[k], now)
  }

  /** A Firestore merge update (`DocumentReference.update`): fields named in
      the patch take the patch's value, every other field keeps its own. */
  function Merge(current: Doc, patch: Doc, now: string): (r: Doc)
    ensures r.Keys == current.Keys + patch.Keys
    ensures forall k :: k in current && k !in patch ==> r[k] == current[k]
    ensures forall k :: k in patch && patch[k] != ServerTimestamp ==> r[k] == patch[k]
    ensures forall k :: k in patch && patch[k] == ServerTimestamp ==> r[k] == Timestamp(now)
  {
    current + Resolve(patch, now)
  }

  // ---------------------------------------------------------------------------
  // Firestore's ordering of values of mixed types

  /** Position of a value's type in Firestore's cross-type order: null,
      booleans, numbers, timestamps, strings, arrays. */
  function TypeRank(v: Value): nat {
    match v
    case Null => 0
    case Bool(_) => 1
    case Int(_) => 2
    case ServerTimestamp => 3
    case Timestamp(_) => 3
    case Str(_) => 4
    case List(_) => 5
  }

  /** `a` sorts at or before `b`. Within integers and booleans the order is
      the natural one; values of the other types are treated as ties, which
      the scripts never distinguish. */
  predicate IdLeq(a: Value, b: Value) {
    if TypeRank(a) != TypeRank(b) then TypeRank(a) < TypeRank(b)
    else match a
      case Int(x) => b.Int? && x <= b.n
      case Bool(x) => b.Bool? && (x ==> b.b)
      case _ => true
  }

  /** `a` sorts at or before `b` in an `order_by('created_at')` query:
      Firestore's cross-type order, with two timestamps compared by their
      RFC 3339 text. The server writes every timestamp in one UTC format, in
      which the text order is the time order. */
  predicate TimeLeq(a: Value, b: Value) {
    if TypeRank(a) != TypeRank(b) then TypeRank(a) < TypeRank(b)
    else match a
      case Timestamp(x) => b.Timestamp? ==> Text.LexLeq(x, b.rfc3339)
      case _ => IdLeq(a, b)
  }

  // ---------------------------------------------------------------------------
  // Python's str() of a value, used when a value is formatted into a name

  /** `str(v)`. Strings inside a list are shown in single quotes; Python's
      escaping of quotes and control characters is not modelled. */
  function Display(v: Value): string
    decreases v, 1, 0
  {
    match v
    case Null => "None"
    case Bool(b) => if b then "True" else "False"
    case Int(n) => Text.IntToString(n)
    case Str(s) => s
    case List(items) => "[" + DisplayItems(v, 0) + "]"
    case ServerTimestamp => "SERVER_TIMESTAMP"
    case Timestamp(t) => t
  }

  /** The items of list `v` from index `i` on, each as `repr`, joined by ", ". */
  function DisplayItems(v: Value, i: nat): string
    requires v.List?
    decreases v, 0, |v.items| - i
  {
    if i >= |v.items| then ""
    else
      var item := v.items[i];
      var shown := if item.Str? then "'" + item.s + "'" else Display(item);
      (if i == 0 then "" else ", ") + shown + DisplayItems(v, i + 1)
  }

  // ---------------------------------------------------------------------------
  // Queries

  /** `where('project', '==', name)`: equality is type-strict. */
  predicate InProject(d: Doc, project: string) {
    "project" in d && d["project"] == Str(project)
  }

  /** The keys a `where('project', '==', project).stream()` delivered, in
      its order: distinct documents of the project. When the stream ends
      normally (`complete`) every document of the project is among them;
      otherwise the stream raised after delivering these. */
  predicate IsProjectStream(store: Store, project: string, keys: seq<string>, complete: bool) {
    && (forall i :: 0 <= i < |keys| ==> keys[i] in store && InProject(store[keys[i]], project))
    && (forall i, j :: 0 <= i < j < |keys| ==> keys[i] != keys[j])
    && (complete ==> forall k :: k in store && InProject(store[k], project) ==> k in keys)
  }

  /** `query.limit(n)`: at most the first `n` results. */
  function Limit<T>(s: seq<T>, n: nat): (r: seq<T>)
    ensures |r| <= n && |r| <= |s|
    ensures r == s[..|r|]
    ensures |r| == n || r == s
  {
    if n >= |s| then s else s[..n]
  }
}
