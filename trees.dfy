/**
  The tree endpoint (grapit.rb:118-150).

  A tree is read as its id, its immediate subtrees and its immediate blobs,
  each group in the order the repository stores it. The listing is the
  subtrees followed by the blobs. Both groups go through `makeTree`, so
  every entry, blobs included, reads `type: "tree"` and has no `size`;
  `makeBlob` is defined but never called. `ListTree` is the endpoint as
  written; `ListTreeTyped` is the listing with `makeBlob` applied to the
  blobs.
*/
module Trees {
  import opened Wrappers

  /** One child of a tree: a subtree, or a blob with its size in bytes. */
  datatype Entry =
    | SubtreeEntry(name: string, mode: string, id: string)
    | BlobEntry(name: string, mode: string, id: string, size: nat)

  datatype Tree = Tree(id: string, trees: seq<Entry>, blobs: seq<Entry>)

  /** The subtrees group holds subtrees and the blobs group holds blobs. */
  predicate WellFormed(t: Tree) {
    && (forall i :: 0 <= i < |t.trees| ==> t.trees[i].SubtreeEntry?)
    && (forall i :: 0 <= i < |t.blobs| ==> t.blobs[i].BlobEntry?)
  }

  /**
    `{ path, mode, type, sha }`, or `{ path, mode, type, size, sha }` when
    `size` is present.
  */
  datatype EntryRecord = EntryRecord(path: string, mode: string, objType: string, size: Option<nat>, sha: string)

  /** `{ sha: ..., tree: [...] }` */
  datatype TreeListing = TreeListing(sha: string, tree: seq<EntryRecord>)

  /** `makeTree`: any child, typed as a tree and without a size. */
  function MakeTree(e: Entry): (r: EntryRecord)
    ensures r.path == e.name && r.mode == e.mode && r.sha == e.id
    ensures r.objType == "tree" && r.size.None?
  {
    EntryRecord(e.name, e.mode, "tree", None, e.id)
  }

  /** `makeBlob`: a blob child, typed as a blob and with its size. */
  function MakeBlob(e: Entry): (r: EntryRecord)
    requires e.BlobEntry?
    ensures r.path == e.name && r.mode == e.mode && r.sha == e.id
    ensures r.objType == "blob" && r.size == Some(e.size)
  {
    EntryRecord(e.name, e.mode, "blob", Some(e.size), e.id)
  }

  /** Agreement in everything but the type and the size. */
  predicate SameChild(r: EntryRecord, e: Entry) {
    r.path == e.name && r.mode == e.mode && r.sha == e.id
  }

  /** `children.map { |t| makeTree(t) }` */
  function MapMakeTree(es: seq<Entry>): (rs: seq<EntryRecord>)
    ensures |rs| == |es|
    ensures forall i :: 0 <= i < |es| ==> SameChild(rs[i], es[i]) && rs[i].objType == "tree" && rs[i].size.None?
  {
    if es == [] then [] else [MakeTree(es[0])] + MapMakeTree(es[1..])
  }

  /** `blobs.map { |t| makeBlob(t) }` */
  function MapMakeBlob(es: seq<Entry>): (rs: seq<EntryRecord>)
    requires forall i :: 0 <= i < |es| ==> es[i].BlobEntry?
    ensures |rs| == |es|
    ensures forall i :: 0 <= i < |es| ==> SameChild(rs[i], es[i]) && rs[i].objType == "blob" && rs[i].size == Some(es[i].size)
  {
    if es == [] then [] else [MakeBlob(es[0])] + MapMakeBlob(es[1..])
  }

  /**
    `GET /repos/:repo/git/trees/:sha` as written: subtrees then blobs, each in
    store order, every entry typed `tree` and without a size.
  */
  function ListTree(t: Tree): (l: TreeListing)
    ensures l.sha == t.id
    ensures |l.tree| == |t.trees| + |t.blobs|
    ensures forall i :: 0 <= i < |t.trees| ==> SameChild(l.tree[i], t.trees[i])
    ensures forall i :: 0 <= i < |t.blobs| ==> SameChild(l.tree[|t.trees| + i], t.blobs[i])
    ensures forall i :: 0 <= i < |l.tree| ==> l.tree[i].objType == "tree" && l.tree[i].size.None?
  {
    var subTrees := MapMakeTree(t.trees);
    var blobs := MapMakeTree(t.blobs);
    TreeListing(t.id, subTrees + blobs)
  }

  /** A one-blob tree whose blob is listed as a tree and loses its size. */
  lemma BlobListedAsTree()
    ensures var t := Tree("t1", [], [BlobEntry("README", "100644", "b1", 12)]);
      && t.blobs[0].BlobEntry?
      && ListTree(t).tree[0].objType == "tree"
      && ListTree(t).tree[0].size == None
      && ListTreeTyped(t).tree[0].objType == "blob"
      && ListTreeTyped(t).tree[0].size == Some(12)
  {
  }

  /**
    The listing with `makeBlob` applied to the blobs: subtrees then blobs,
    each in store order, and each entry typed by what it is.
  */
  function ListTreeTyped(t: Tree): (l: TreeListing)
    requires WellFormed(t)
    ensures l.sha == t.id
    ensures |l.tree| == |t.trees| + |t.blobs|
    ensures forall i :: 0 <= i < |t.trees| ==>
      SameChild(l.tree[i], t.trees[i]) && l.tree[i].objType == "tree" && l.tree[i].size.None?
    ensures forall i :: 0 <= i < |t.blobs| ==>
      SameChild(l.tree[|t.trees| + i], t.blobs[i])
      && l.tree[|t.trees| + i].objType == "blob"
      && l.tree[|t.trees| + i].size == Some(t.blobs[i].size)
  {
    TreeListing(t.id, MapMakeTree(t.trees) + MapMakeBlob(t.blobs))
  }

  /** An entry's type says which group it came from, and every tree entry comes first. */
  lemma TypedListingGroups(t: Tree, i: int, j: int)
    requires WellFormed(t)
    requires 0 <= i < j < |ListTreeTyped(t).tree|
    ensures ListTreeTyped(t).tree[i].objType == "tree" <==> i < |t.trees|
    ensures ListTreeTyped(t).tree[j].objType == "tree" ==> ListTreeTyped(t).tree[i].objType == "tree"
  {
  }

  /** Both listings name the same children at the same positions; only types and sizes differ. */
  lemma ListingsAgreeOnChildren(t: Tree)
    requires WellFormed(t)
    ensures |ListTree(t).tree| == |ListTreeTyped(t).tree|
    ensures forall i :: 0 <= i < |ListTree(t).tree| ==>
      var a, b := ListTree(t).tree[i], ListTreeTyped(t).tree[i];
      a.path == b.path && a.mode == b.mode && a.sha == b.sha
    ensures forall i :: 0 <= i < |t.trees| ==> ListTree(t).tree[i] == ListTreeTyped(t).tree[i]
  {
  }
}
