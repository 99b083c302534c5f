/** driveController/listDriveTree.py: the Drive listing turned into a tree of
    folders and files, and that tree rendered as indented lines. Python's
    node dictionaries are shared objects; here a node's children are the
    ids of the nodes they point to. */
module DriveTree {
  import opened Wrappers
  import DriveUtils

  /** One entry of `files().list(fields="files(id, name, mimeType, parents)")`;
      `parents` is None when the entry has no `parents` key. */
  datatype DriveFile = DriveFile(id: string, name: string, mimeType: string, parents: Option<seq<string>>)

  datatype Kind = Folder | File

  /** The `{'name', 'type', 'children'}` dictionary of one file. */
  datatype Node = Node(name: string, kind: Kind, children: seq<string>)

  /** All nodes by id, and the ids of the `tree` dictionary in its order. */
  datatype Tree = Tree(nodes: map<string, Node>, roots: seq<string>)

  function KindOf(mimeType: string): Kind {
    if mimeType == DriveUtils.FolderMime then Folder else File
  }

  /** The node the first loop makes for a file: no children yet. */
  function NodeOf(f: DriveFile): Node {
    Node(f.name, KindOf(f.mimeType), [])
  }

  function Ids(files: seq<DriveFile>): set<string> {
    set i | 0 <= i < |files| :: files[i].id
  }

  predicate UniqueIds(files: seq<DriveFile>) {
    forall i, j :: 0 <= i < j < |files| ==> files[i].id != files[j].id
  }

  /** `file.get('parents', ['root'])[0]`; None is the IndexError of an empty
      `parents` list. */
  function ParentOf(f: DriveFile): Option<string> {
    match f.parents
    case None => Some("root")
    case Some(ps) => if |ps| == 0 then None else Some(ps[0])
  }

  // ---------------------------------------------------------------------------
  // build_tree

  /** The first loop: every file's node under its id, a later file with the
      same id replacing an earlier one. */
  function Lookup(files: seq<DriveFile>): map<string, Node>
    decreases |files|
  {
    if files == [] then map[]
    else
      var n := |files| - 1;
      Lookup(files[..n])[files[n].id := NodeOf(files[n])]
  }

  /** The second loop over `files`: each file is appended to its parent's
      children when the parent is a known id, and is otherwise entered in
      `tree` under its own id (a dictionary key keeps its first position). */
  function Organize(lookup: map<string, Node>, files: seq<DriveFile>): (r: Option<Tree>)
    ensures r.Some? ==> r.value.nodes.Keys == lookup.Keys
    decreases |files|
  {
    if files == [] then Some(Tree(lookup, []))
    else
      var n := |files| - 1;
      var f := files[n];
      match Organize(lookup, files[..n])
      case None => None
      case Some(t) =>
        match ParentOf(f)
        case None => None
        case Some(p) =>
          if p in lookup then
            Some(Tree(t.nodes[p := t.nodes[p].(children := t.nodes[p].children + [f.id])], t.roots))
          else
            Some(Tree(t.nodes, if f.id in t.roots then t.roots else t.roots + [f.id]))
  }

  /** `build_tree(files)`; None when it raises. */
  function BuildTree(files: seq<DriveFile>): Option<Tree> {
    Organize(Lookup(files), files)
  }

  // ---------------------------------------------------------------------------
  // What build_tree builds

  lemma {:induction false} IdsOfPrefix(files: seq<DriveFile>)
    requires files != []
    ensures Ids(files) == Ids(files[..|files| - 1]) + {files[|files| - 1].id}
  {
    var n := |files| - 1;
    forall x | x in Ids(files)
      ensures x in Ids(files[..n]) + {files[n].id}
    {
      var i :| 0 <= i < |files| && files[i].id == x;
      if i < n {
        assert files[..n][i] == files[i];
      }
    }
    forall x | x in Ids(files[..n])
      ensures x in Ids(files)
    {
      var i :| 0 <= i < n && files[..n][i].id == x;
      assert files[i].id == x;
    }
  }

  /** Every id gets a node, with no children yet. */
  lemma {:induction false} LookupKeys(files: seq<DriveFile>)
    ensures Lookup(files).Keys == Ids(files)
    ensures forall k :: k in Lookup(files) ==> Lookup(files)[k].children == []
    decreases |files|
  {
    if files != [] {
      LookupKeys(files[..|files| - 1]);
      IdsOfPrefix(files);
    }
  }

  /** The node of an id carries the name and type of the last file with
      that id. */
  lemma {:induction false} LookupLastWins(files: seq<DriveFile>, i: nat)
    requires i < |files|
    requires forall j :: i < j < |files| ==> files[j].id != files[i].id
    ensures files[i].id in Lookup(files) && Lookup(files)[files[i].id] == NodeOf(files[i])
    decreases |files|
  {
    var n := |files| - 1;
    if i < n {
      assert files[..n][i] == files[i];
      assert forall j :: i < j < n ==> files[..n][j] == files[j];
      LookupLastWins(files[..n], i);
    }
  }

  /** The ids of the files whose parent is `p`, in input order. */
  function ChildIds(files: seq<DriveFile>, p: string): seq<string>
    decreases |files|
  {
    if files == [] then []
    else
      var n := |files| - 1;
      ChildIds(files[..n], p) + (if ParentOf(files[n]) == Some(p) then [files[n].id] else [])
  }

  /** The ids of the files whose parent is not an id of `known`, each once,
      in order of first appearance. */
  function RootIds(known: set<string>, files: seq<DriveFile>): seq<string>
    decreases |files|
  {
    if files == [] then []
    else
      var n := |files| - 1;
      var prev := RootIds(known, files[..n]);
      var f := files[n];
      if ParentOf(f).Some? && ParentOf(f).value !in known && f.id !in prev then prev + [f.id] else prev
  }

  /** Every file's parent list is either absent or non-empty. */
  predicate ParentsReadable(files: seq<DriveFile>) {
    forall i :: 0 <= i < |files| ==> ParentOf(files[i]).Some?
  }

  /** The second loop raises exactly on an empty `parents` list. */
  lemma {:induction false} OrganizeFails(lookup: map<string, Node>, files: seq<DriveFile>)
    ensures Organize(lookup, files).Some? <==> ParentsReadable(files)
    decreases |files|
  {
    if files != [] {
      var n := |files| - 1;
      OrganizeFails(lookup, files[..n]);
      assert forall i :: 0 <= i < n ==> files[..n][i] == files[i];
    }
  }

  /** Otherwise it keeps each node's name and type, gives it as children
      exactly the files naming it as parent, and makes the rest roots. */
  lemma {:induction false} OrganizeBuilds(lookup: map<string, Node>, files: seq<DriveFile>)
    requires Organize(lookup, files).Some?
    ensures var t := Organize(lookup, files).value;
            && (forall p :: p in lookup ==>
                  && t.nodes[p].name == lookup[p].name
                  && t.nodes[p].kind == lookup[p].kind
                  && t.nodes[p].children == lookup[p].children + ChildIds(files, p))
            && t.roots == RootIds(lookup.Keys, files)
    decreases |files|
  {
    if files != [] {
      var n := |files| - 1;
      var p := ParentOf(files[n]).value;
      OrganizeBuilds(lookup, files[..n]);
      if p in lookup {
        forall q | q in lookup
          ensures Organize(lookup, files).value.nodes[q].children == lookup[q].children + ChildIds(files, q)
        {
          if q == p {
            assert lookup[q].children + ChildIds(files, q)
                == (lookup[q].children + ChildIds(files[..n], q)) + [files[n].id];
          }
        }
      }
    }
  }

  /** A tree whose roots and children all name nodes. */
  predicate WellFormed(t: Tree) {
    && (forall i :: 0 <= i < |t.roots| ==> t.roots[i] in t.nodes)
    && (forall p :: p in t.nodes ==> forall c :: c in t.nodes[p].children ==> c in t.nodes)
  }

  lemma {:induction false} ChildIdsAreIds(files: seq<DriveFile>, p: string)
    ensures forall c :: c in ChildIds(files, p) <==>
              exists i :: 0 <= i < |files| && files[i].id == c && ParentOf(files[i]) == Some(p)
    decreases |files|
  {
    if files != [] {
      var n := |files| - 1;
      ChildIdsAreIds(files[..n], p);
      assert forall i :: 0 <= i < n ==> files[..n][i] == files[i];
    }
  }

  lemma {:induction false} RootIdsAreIds(known: set<string>, files: seq<DriveFile>)
    ensures forall c :: c in RootIds(known, files) <==>
              exists i :: 0 <= i < |files| && files[i].id == c && ParentOf(files[i]).Some?
                          && ParentOf(files[i]).value !in known
    ensures forall a, b :: 0 <= a < b < |RootIds(known, files)| ==> RootIds(known, files)[a] != RootIds(known, files)[b]
    decreases |files|
  {
    if files != [] {
      var n := |files| - 1;
      RootIdsAreIds(known, files[..n]);
      assert forall i :: 0 <= i < n ==> files[..n][i] == files[i];
    }
  }

  /** `build_tree` raises exactly when some file has an empty `parents`
      list; otherwise every id has a node with the name and type of the last
      file carrying it, a node's children are the files naming it as parent,
      in input order, and the roots are the files whose parent is not an
      input id, each once. */
  lemma BuildTreeShape(files: seq<DriveFile>)
    ensures BuildTree(files).Some? <==> ParentsReadable(files)
    ensures BuildTree(files).Some? ==>
              var t := BuildTree(files).value;
              && t.nodes.Keys == Ids(files)
              && (forall p :: p in t.nodes ==> t.nodes[p].children == ChildIds(files, p))
              && t.roots == RootIds(Ids(files), files)
  {
    LookupKeys(files);
    OrganizeFails(Lookup(files), files);
    if BuildTree(files).Some? {
      OrganizeBuilds(Lookup(files), files);
    }
  }

  /** A node built for the last file with a given id has that file's name,
      and is a folder iff the file has the folder MIME type. */
  lemma BuildTreeNode(files: seq<DriveFile>, i: nat)
    requires BuildTree(files).Some? && i < |files|
    requires forall j :: i < j < |files| ==> files[j].id != files[i].id
    ensures files[i].id in BuildTree(files).value.nodes
    ensures var n := BuildTree(files).value.nodes[files[i].id];
            n.name == files[i].name && (n.kind == Folder <==> files[i].mimeType == DriveUtils.FolderMime)
  {
    LookupLastWins(files, i);
    OrganizeBuilds(Lookup(files), files);
  }

  /** The built tree is well formed: roots and children are input ids. */
  lemma BuildTreeWellFormed(files: seq<DriveFile>)
    requires BuildTree(files).Some?
    ensures WellFormed(BuildTree(files).value)
  {
    BuildTreeShape(files);
    var t := BuildTree(files).value;
    RootIdsAreIds(Ids(files), files);
    forall k | 0 <= k < |t.roots|
      ensures t.roots[k] in t.nodes
    {
      assert t.roots[k] in RootIds(Ids(files), files);
      var i :| 0 <= i < |files| && files[i].id == t.roots[k] && ParentOf(files[i]).Some?
               && ParentOf(files[i]).value !in Ids(files);
      assert files[i].id in Ids(files);
    }
    forall p, c | p in t.nodes && c in t.nodes[p].children
      ensures c in t.nodes
    {
      ChildIdsAreIds(files, p);
      var i :| 0 <= i < |files| && files[i].id == c && ParentOf(files[i]) == Some(p);
      assert files[i].id in Ids(files);
    }
  }

  /** With unique ids every file appears exactly once: as a root when its
      parent is not an input id, and otherwise exactly once among its
      parent's children and nowhere else. */
  lemma EachFileOnce(files: seq<DriveFile>, i: nat)
    requires UniqueIds(files) && BuildTree(files).Some? && i < |files|
    ensures ParentOf(files[i]).Some?
    ensures var t := BuildTree(files).value;
            var p := ParentOf(files[i]).value;
            && (p !in t.nodes ==>
                  files[i].id in t.roots && forall q :: q in t.nodes ==> files[i].id !in t.nodes[q].children)
            && (p in t.nodes ==>
                  && files[i].id !in t.roots
                  && multiset(t.nodes[p].children)[files[i].id] == 1
                  && forall q :: q in t.nodes && q != p ==> files[i].id !in t.nodes[q].children)
  {
    BuildTreeShape(files);
    var t := BuildTree(files).value;
    var p := ParentOf(files[i]).value;
    RootIdsAreIds(Ids(files), files);
    assert files[i].id in Ids(files);
    forall q | q in t.nodes
      ensures files[i].id in t.nodes[q].children <==> q == p
    {
      ChildIdsAreIds(files, q);
    }
    if p in t.nodes {
      ChildIdsOnce(files, p, i);
    }
  }

  /** With unique ids, a file whose parent is `p` is among `p`'s child ids
      exactly once. */
  lemma {:induction false} ChildIdsOnce(files: seq<DriveFile>, p: string, i: nat)
    requires UniqueIds(files) && i < |files| && ParentOf(files[i]) == Some(p)
    ensures multiset(ChildIds(files, p))[files[i].id] == 1
    decreases |files|
  {
    var n := |files| - 1;
    assert forall k :: 0 <= k < n ==> files[..n][k] == files[k];
    if i < n {
      ChildIdsOnce(files[..n], p, i);
    } else {
      ChildIdsAreIds(files[..n], p);
      assert files[i].id !in ChildIds(files[..n], p);
    }
  }

  // ---------------------------------------------------------------------------
  // print_tree and display_drive_tree

  const FolderIcon := "\U{1F4C1} "
  const FileIcon := "\U{1F4C4} "

  function Spaces(n: nat): string {
    seq(n, _ => ' ')
  }

  /** The line `print_tree` prints for a node at depth `indent`. */
  function Line(n: Node, indent: nat): string {
    Spaces(2 * indent) + (if n.kind == Folder then FolderIcon else FileIcon) + n.name
  }

  /** A line that starts with at least `2 * indent` spaces. */
  predicate Indented(line: string, indent: nat) {
    |line| >= 2 * indent && line[..2 * indent] == Spaces(2 * indent)
  }

  lemma Shallower(lines: seq<string>, indent: nat)
    requires forall k :: 0 <= k < |lines| ==> Indented(lines[k], indent + 1)
    ensures forall k :: 0 <= k < |lines| ==> Indented(lines[k], indent)
  {
    forall k | 0 <= k < |lines|
      ensures Indented(lines[k], indent)
    {
      assert lines[k][..2 * indent] == lines[k][..2 * (indent + 1)][..2 * indent];
    }
  }

  /** `print_tree(node, indent)` as the lines it prints: the node's line,
      then each child's lines one level deeper, in order. The recursion depth
      is bounded by `fuel`; None when it runs out (a cycle in the listing
      makes Python recurse until it raises). */
  function RenderNode(t: Tree, id: string, indent: nat, fuel: nat): (r: Option<seq<string>>)
    requires WellFormed(t) && id in t.nodes
    ensures r.Some? ==> |r.value| >= 1 && r.value[0] == Line(t.nodes[id], indent)
    ensures r.Some? ==> forall k :: 0 <= k < |r.value| ==> Indented(r.value[k], indent)
    decreases fuel, 0
  {
    if fuel == 0 then None
    else
      var n := t.nodes[id];
      match RenderChildren(t, n.children, indent + 1, fuel - 1)
      case None => None
      case Some(below) =>
        Shallower(below, indent);
        assert Line(n, indent)[..2 * indent] == Spaces(2 * indent);
        Some([Line(n, indent)] + below)
  }

  /** The lines of the nodes `ids`, one after another, each at `indent`. */
  function RenderChildren(t: Tree, ids: seq<string>, indent: nat, fuel: nat): (r: Option<seq<string>>)
    requires WellFormed(t) && forall k :: 0 <= k < |ids| ==> ids[k] in t.nodes
    ensures r.Some? ==> |r.value| >= |ids|
    ensures r.Some? ==> forall k :: 0 <= k < |r.value| ==> Indented(r.value[k], indent)
    decreases fuel, 1, |ids|
  {
    if ids == [] then Some([])
    else
      match RenderNode(t, ids[0], indent, fuel)
      case None => None
      case Some(first) =>
        match RenderChildren(t, ids[1..], indent, fuel)
        case None => None
        case Some(rest) => Some(first + rest)
  }

  /** More fuel changes nothing once the rendering fits. */
  lemma {:induction false} RenderNodeFuel(t: Tree, id: string, indent: nat, fuel: nat)
    requires WellFormed(t) && id in t.nodes
    requires RenderNode(t, id, indent, fuel).Some?
    ensures RenderNode(t, id, indent, fuel + 1) == RenderNode(t, id, indent, fuel)
    decreases fuel, 0
  {
    RenderChildrenFuel(t, t.nodes[id].children, indent + 1, fuel - 1);
  }

  lemma {:induction false} RenderChildrenFuel(t: Tree, ids: seq<string>, indent: nat, fuel: nat)
    requires WellFormed(t) && forall k :: 0 <= k < |ids| ==> ids[k] in t.nodes
    requires RenderChildren(t, ids, indent, fuel).Some?
    ensures RenderChildren(t, ids, indent, fuel + 1) == RenderChildren(t, ids, indent, fuel)
    decreases fuel, 1, |ids|
  {
    if ids != [] {
      RenderNodeFuel(t, ids[0], indent, fuel);
      RenderChildrenFuel(t, ids[1..], indent, fuel);
    }
  }

  /** Every node of `ids[..k]` renders within `fuel`. */
  predicate RendersPrefix(t: Tree, ids: seq<string>, indent: nat, fuel: nat, k: nat)
    requires WellFormed(t) && forall j :: 0 <= j < |ids| ==> ids[j] in t.nodes
    requires k <= |ids|
  {
    forall j :: 0 <= j < k ==> RenderNode(t, ids[j], indent, fuel).Some?
  }

  /** The number of lines the nodes `ids[..k]` print: where the lines of
      `ids[k]` start. */
  function Offset(t: Tree, ids: seq<string>, indent: nat, fuel: nat, k: nat): nat
    requires WellFormed(t) && forall j :: 0 <= j < |ids| ==> ids[j] in t.nodes
    requires k <= |ids| && RendersPrefix(t, ids, indent, fuel, k)
    decreases k
  {
    if k == 0 then 0
    else Offset(t, ids, indent, fuel, k - 1) + |RenderNode(t, ids[k - 1], indent, fuel).value|
  }

  /** Offsets only look at the nodes before `k`. */
  lemma {:induction false} OffsetOfPrefix(t: Tree, ids: seq<string>, front: seq<string>, indent: nat, fuel: nat, k: nat)
    requires WellFormed(t) && forall j :: 0 <= j < |ids| ==> ids[j] in t.nodes
    requires k <= |front| <= |ids| && front == ids[..|front|]
    requires RendersPrefix(t, front, indent, fuel, k)
    ensures RendersPrefix(t, ids, indent, fuel, k)
    ensures Offset(t, ids, indent, fuel, k) == Offset(t, front, indent, fuel, k)
    decreases k
  {
    assert forall j :: 0 <= j < k ==> front[j] == ids[j];
    if k > 0 {
      OffsetOfPrefix(t, ids, front, indent, fuel, k - 1);
    }
  }

  /** When the list renders, so does each of its nodes, and their lines
      together are as many as the list's. */
  lemma {:induction false} RenderChildrenTotal(t: Tree, ids: seq<string>, indent: nat, fuel: nat)
    requires WellFormed(t) && forall j :: 0 <= j < |ids| ==> ids[j] in t.nodes
    requires RenderChildren(t, ids, indent, fuel).Some?
    ensures RendersPrefix(t, ids, indent, fuel, |ids|)
    ensures Offset(t, ids, indent, fuel, |ids|) == |RenderChildren(t, ids, indent, fuel).value|
    decreases |ids|
  {
    if ids != [] {
      var n := |ids| - 1;
      var front := ids[..n];
      RenderChildrenSnoc(t, ids, indent, fuel);
      RenderChildrenTotal(t, front, indent, fuel);
      OffsetOfPrefix(t, ids, front, indent, fuel, n);
    }
  }

  /** `lines[Offset(k)..Offset(k + 1)]` is the rendering of `ids[k]`, which
      opens with the node's own line. */
  predicate IsBlock(t: Tree, ids: seq<string>, indent: nat, fuel: nat, lines: seq<string>, k: nat)
    requires WellFormed(t) && forall j :: 0 <= j < |ids| ==> ids[j] in t.nodes
  {
    && k < |ids|
    && RendersPrefix(t, ids, indent, fuel, k + 1)
    && Offset(t, ids, indent, fuel, k) < Offset(t, ids, indent, fuel, k + 1) <= |lines|
    && lines[Offset(t, ids, indent, fuel, k)] == Line(t.nodes[ids[k]], indent)
    && lines[Offset(t, ids, indent, fuel, k)..Offset(t, ids, indent, fuel, k + 1)]
       == RenderNode(t, ids[k], indent, fuel).value
  }

  /** The lines of `ids[k]` sit between `Offset(k)` and `Offset(k + 1)`. */
  lemma {:induction false} RenderChildrenBlock(t: Tree, ids: seq<string>, indent: nat, fuel: nat, k: nat)
    requires WellFormed(t) && forall j :: 0 <= j < |ids| ==> ids[j] in t.nodes
    requires RenderChildren(t, ids, indent, fuel).Some? && k < |ids|
    ensures IsBlock(t, ids, indent, fuel, RenderChildren(t, ids, indent, fuel).value, k)
    decreases |ids|
  {
    var n := |ids| - 1;
    if k < n {
      var front := ids[..n];
      RenderChildrenSnoc(t, ids, indent, fuel);
      var before := RenderChildren(t, front, indent, fuel).value;
      var last := RenderNode(t, ids[n], indent, fuel).value;
      var lines := RenderChildren(t, ids, indent, fuel).value;
      RenderChildrenBlock(t, front, indent, fuel, k);
      OffsetOfPrefix(t, ids, front, indent, fuel, k);
      OffsetOfPrefix(t, ids, front, indent, fuel, k + 1);
      var a, b := Offset(t, front, indent, fuel, k), Offset(t, front, indent, fuel, k + 1);
      assert front[k] == ids[k];
      assert a < b <= |before|;
      SliceOfPrefix(before, last, a, b);
    } else {
      RenderChildrenLastBlock(t, ids, indent, fuel);
    }
  }

  /** The last node's lines close the rendering. */
  lemma RenderChildrenLastBlock(t: Tree, ids: seq<string>, indent: nat, fuel: nat)
    requires WellFormed(t) && forall j :: 0 <= j < |ids| ==> ids[j] in t.nodes
    requires RenderChildren(t, ids, indent, fuel).Some? && ids != []
    ensures IsBlock(t, ids, indent, fuel, RenderChildren(t, ids, indent, fuel).value, |ids| - 1)
  {
    var n := |ids| - 1;
    var front := ids[..n];
    RenderChildrenSnoc(t, ids, indent, fuel);
    RenderChildrenTotal(t, front, indent, fuel);
    OffsetOfPrefix(t, ids, front, indent, fuel, n);
    var before := RenderChildren(t, front, indent, fuel).value;
    var last := RenderNode(t, ids[n], indent, fuel).value;
    SliceOfConcat(before, last);
  }

  lemma SliceOfPrefix<T>(a: seq<T>, b: seq<T>, i: nat, j: nat)
    requires i < j <= |a|
    ensures (a + b)[i..j] == a[i..j] && (a + b)[i] == a[i]
  {
  }

  lemma SliceOfConcat<T>(a: seq<T>, b: seq<T>)
    ensures (a + b)[|a|..|a| + |b|] == b
  {
  }

  /** The lines of `ids` are the lines of each node in turn: the block of
      `ids[k]` runs from `Offset(k)` to `Offset(k + 1)` and opens with the
      node's own line, and the blocks fill the rendering. */
  lemma RenderChildrenInOrder(t: Tree, ids: seq<string>, indent: nat, fuel: nat)
    requires WellFormed(t) && forall j :: 0 <= j < |ids| ==> ids[j] in t.nodes
    requires RenderChildren(t, ids, indent, fuel).Some?
    ensures RendersPrefix(t, ids, indent, fuel, |ids|)
    ensures Offset(t, ids, indent, fuel, |ids|) == |RenderChildren(t, ids, indent, fuel).value|
    ensures forall k :: 0 <= k < |ids| ==> IsBlock(t, ids, indent, fuel, RenderChildren(t, ids, indent, fuel).value, k)
  {
    RenderChildrenTotal(t, ids, indent, fuel);
    forall k | 0 <= k < |ids|
      ensures IsBlock(t, ids, indent, fuel, RenderChildren(t, ids, indent, fuel).value, k)
    {
      RenderChildrenBlock(t, ids, indent, fuel, k);
    }
  }

  /** Rendering a list is rendering all but its last node, then the last. */
  lemma {:induction false} RenderChildrenSnoc(t: Tree, ids: seq<string>, indent: nat, fuel: nat)
    requires WellFormed(t) && forall j :: 0 <= j < |ids| ==> ids[j] in t.nodes
    requires ids != [] && RenderChildren(t, ids, indent, fuel).Some?
    ensures var n := |ids| - 1;
            && RenderChildren(t, ids[..n], indent, fuel).Some?
            && RenderNode(t, ids[n], indent, fuel).Some?
            && RenderChildren(t, ids, indent, fuel).value
               == RenderChildren(t, ids[..n], indent, fuel).value + RenderNode(t, ids[n], indent, fuel).value
    decreases |ids|
  {
    var n := |ids| - 1;
    if n > 0 {
      var rest := ids[1..];
      RenderChildrenSnoc(t, rest, indent, fuel);
      assert rest[..n - 1] == ids[..n][1..];
      assert rest[n - 1] == ids[n];
      assert ids[..n][0] == ids[0];
    } else {
      assert ids[..n] == [] && ids[1..] == [];
      var first := RenderNode(t, ids[0], indent, fuel).value;
      assert first + [] == first;
    }
  }

  /** `print_tree(node, indent)` prints the node's line, then each child's
      lines in order, the children one level deeper. */
  lemma RenderNodeListsChildren(t: Tree, id: string, indent: nat, fuel: nat)
    requires WellFormed(t) && id in t.nodes
    requires RenderNode(t, id, indent, fuel).Some?
    ensures fuel > 0
    ensures var ids := t.nodes[id].children;
            && RenderChildren(t, ids, indent + 1, fuel - 1).Some?
            && RendersPrefix(t, ids, indent + 1, fuel - 1, |ids|)
    ensures var ids := t.nodes[id].children;
            var lines := RenderNode(t, id, indent, fuel).value;
            && lines[0] == Line(t.nodes[id], indent)
            && |lines| == 1 + Offset(t, ids, indent + 1, fuel - 1, |ids|)
            && forall k :: 0 <= k < |ids| ==>
                 && IsBlock(t, ids, indent + 1, fuel - 1, lines[1..], k)
                 && lines[1 + Offset(t, ids, indent + 1, fuel - 1, k)] == Line(t.nodes[ids[k]], indent + 1)
  {
    var ids := t.nodes[id].children;
    RenderChildrenInOrder(t, ids, indent + 1, fuel - 1);
    assert RenderNode(t, id, indent, fuel).value[1..] == RenderChildren(t, ids, indent + 1, fuel - 1).value;
  }

  const Header := "Google Drive File Structure:"

  /** `display_drive_tree()` over a listing: the header, then every root's
      lines at depth 0, in the order of `tree`. None when `build_tree`
      raises or the recursion runs out of `fuel`. */
  function DisplayDriveTree(files: seq<DriveFile>, fuel: nat): (r: Option<seq<string>>)
    ensures r.Some? ==> ParentsReadable(files) && BuildTree(files).Some?
    ensures r.Some? ==> |r.value| >= 1 + |BuildTree(files).value.roots| && r.value[0] == Header
  {
    BuildTreeShape(files);
    match BuildTree(files)
    case None => None
    case Some(t) =>
      BuildTreeWellFormed(files);
      match RenderChildren(t, t.roots, 0, fuel)
      case None => None
      case Some(lines) => Some([Header] + lines)
  }

  /** After the header, the roots' renderings follow one another in the
      order of `tree`, each opening with the root's line at depth 0. */
  lemma DisplayListsRoots(files: seq<DriveFile>, fuel: nat)
    requires DisplayDriveTree(files, fuel).Some?
    ensures BuildTree(files).Some? && WellFormed(BuildTree(files).value)
    ensures var t := BuildTree(files).value;
            && RenderChildren(t, t.roots, 0, fuel).Some?
            && RendersPrefix(t, t.roots, 0, fuel, |t.roots|)
    ensures var t := BuildTree(files).value;
            var lines := DisplayDriveTree(files, fuel).value;
            && lines[0] == Header
            && |lines| == 1 + Offset(t, t.roots, 0, fuel, |t.roots|)
            && forall k :: 0 <= k < |t.roots| ==> IsBlock(t, t.roots, 0, fuel, lines[1..], k)
  {
    BuildTreeWellFormed(files);
    var t := BuildTree(files).value;
    RenderChildrenInOrder(t, t.roots, 0, fuel);
    assert DisplayDriveTree(files, fuel).value[1..] == RenderChildren(t, t.roots, 0, fuel).value;
  }
}
