/**
 * The Texture Utilities panel of the node editor: its own scan (`ScanForFolders`), the
 * Relocate button's guard and the Clear button. The panel lays out the same folder and
 * file rows as the Texture Locator's scan — one folder row per directory whose parent
 * is found by the same backward scan, followed by one row per first-seen filename — but
 * it accepts only image texture nodes whose image is neither generated nor a viewer,
 * labels a nested folder by its path relative to its parent folder, keeps the name of
 * the first image that uses a file, leaves every row collapsed and clears the selection.
 */
module Panel {
  import opened Wrappers
  import opened Seqs
  import opened HostApi
  import opened LexOrder
  import opened PathIndex
  import opened Tree
  import opened ListItems
  import opened TreeBuilder
  import opened ScanFacts

  /** The node type the panel scans. */
  const TexImage := "ShaderNodeTexImage"

  /** One row of the panel's list (`ListItem` of the panel). */
  datatype PanelItem = PanelItem(
    index: int,
    parent: int,
    path: string,
    isFolder: bool,
    relativePath: string,
    expanded: bool,
    imageName: string)

  /** The panel's working storage: the rows and the selected row (-1: none). */
  datatype PanelStuff = PanelStuff(items: seq<PanelItem>, listIndex: int)

  /** Images whose pixels the host makes up rather than reads from a file. */
  predicate Synthetic(source: string) {
    source == "GENERATED" || source == "VIEWER"
  }

  /** A node the scan as written dereferences without an image: a texture node with its image unset. */
  predicate Crashes(n: Node) {
    n.idname == TexImage && n.image.None?
  }

  /** The reference of image `id`, when its absolute path splits into a non-empty directory and filename. */
  function FileRef(id: ImageId, store: ImageStore, host: Host): (r: Option<Ref>)
    requires id in store
    ensures r.Some? <==> host.split(host.abspath(store[id].filepath)).0 != ""
                         && host.split(host.abspath(store[id].filepath)).1 != ""
    ensures r.Some? ==> r.value.image == id && (r.value.dir, r.value.name) == host.split(host.abspath(store[id].filepath))
  {
    var (path, name) := host.split(host.abspath(store[id].filepath));
    if path != "" && name != "" then Some(Ref(path, name, id)) else None
  }

  /**
   * The reference a node contributes once nodes without an image are skipped: a texture
   * node whose image is file-backed and whose path splits into both parts.
   */
  function PanelNodeRef(n: Node, store: ImageStore, host: Host): (r: Option<Ref>)
    requires n.image.Some? ==> n.image.value in store
    ensures r.Some? <==> (n.idname == TexImage && n.image.Some? && !Synthetic(store[n.image.value].source)
                          && FileRef(n.image.value, store, host).Some?)
    ensures r.Some? ==> r.value.image == n.image.value
  {
    if n.idname != TexImage then None
    else match n.image
      case None => None
      case Some(id) => if Synthetic(store[id].source) then None else FileRef(id, store, host)
  }

  /**
   * One node as the source reads it: a texture node's `image.source` is read before
   * anything else, which raises `AttributeError` when the node has no image.
   */
  function PanelNodeRefAsWritten(n: Node, store: ImageStore, host: Host): (r: Result<Option<Ref>, string>)
    requires n.image.Some? ==> n.image.value in store
    ensures r.Failure? <==> Crashes(n)
    ensures r.Success? ==> r.value == PanelNodeRef(n, store, host)
  {
    if n.idname != TexImage then Success(None)
    else match n.image
      case None => Failure("AttributeError")
      case Some(id) => Success(if Synthetic(store[id].source) then None else FileRef(id, store, host))
  }

  /** The references of the nodes, in node order, skipping nodes without an image. */
  function PanelRefs(nodes: seq<Node>, store: ImageStore, host: Host): seq<Ref>
    requires NodesResolve(nodes, store)
    decreases |nodes|
  {
    if |nodes| == 0 then []
    else
      var init := nodes[..|nodes| - 1];
      assert NodesResolve(init, store);
      PanelRefs(init, store, host) + match PanelNodeRef(nodes[|nodes| - 1], store, host)
        case Some(r) => [r]
        case None => []
  }

  /**
   * The node loop as written: it stops at the first texture node without an image, and
   * otherwise collects exactly what the corrected loop collects.
   */
  function PanelRefsAsWritten(nodes: seq<Node>, store: ImageStore, host: Host): (r: Result<seq<Ref>, string>)
    requires NodesResolve(nodes, store)
    ensures r.Failure? <==> exists i :: 0 <= i < |nodes| && Crashes(nodes[i])
    ensures r.Success? ==> r.value == PanelRefs(nodes, store, host)
    decreases |nodes|
  {
    if |nodes| == 0 then Success([])
    else
      var init := nodes[..|nodes| - 1];
      assert NodesResolve(init, store);
      assert forall i :: 0 <= i < |init| ==> init[i] == nodes[i];
      match PanelRefsAsWritten(init, store, host)
      case Failure(e) => Failure(e)
      case Success(refs) =>
        match PanelNodeRefAsWritten(nodes[|nodes| - 1], store, host)
        case Failure(e) => Failure(e)
        case Success(o) => Success(refs + match o case Some(r) => [r] case None => [])
  }

  /** The label of row `k`: a nested folder's path relative to its parent folder, else the row's own path. */
  function Label(items: seq<Item>, k: int, host: Host): string
    requires 0 <= k < |items|
  {
    var it := items[k];
    if it.isFolder && 0 <= it.parent < |items| then host.osRelpath(it.path, items[it.parent].path) else it.path
  }

  /** The name of the first image a file row holds; "" for a folder row. */
  function ImageName(it: Item, store: ImageStore): string {
    if !it.isFolder && |it.images| > 0 && it.images[0] in store then store[it.images[0]].name else ""
  }

  /** The panel's rows for the accepted references: directories in code-point order, every row collapsed. */
  function PanelRows(refs: seq<Ref>, store: ImageStore, host: Host): (rows: seq<PanelItem>)
    ensures |rows| == |Rows(refs, CodePoint, host.isSubdir)|
  {
    var items := Rows(refs, CodePoint, host.isSubdir);
    seq(|items|, k requires 0 <= k < |items| =>
      PanelItem(k, items[k].parent, items[k].path, items[k].isFolder, Label(items, k, host), false, ImageName(items[k], store)))
  }

  /**
   * `ScanForFolders.execute` with nodes lacking an image skipped: the rows are rebuilt
   * from the nodes alone and the selection is cleared, so Relocate is not offered until a
   * row is picked.
   */
  function PanelScan(nodes: seq<Node>, store: ImageStore, host: Host, prev: PanelStuff): (r: PanelStuff)
    requires NodesResolve(nodes, store)
    ensures r.listIndex == -1 && !RemapFolderPoll(true, r)
    ensures |r.items| == |Rows(PanelRefs(nodes, store, host), CodePoint, host.isSubdir)|
  {
    PanelStuff(PanelRows(PanelRefs(nodes, store, host), store, host), -1)
  }

  /**
   * `ScanForFolders.execute` as written: the editor's node tree is read without a check,
   * so an editor showing no tree (`None`) raises `AttributeError`, and so does any texture
   * node without an image, both before the rows are cleared; otherwise it agrees with
   * `PanelScan`.
   */
  function PanelScanAsWritten(tree: Option<seq<Node>>, store: ImageStore, host: Host, prev: PanelStuff): (r: Result<PanelStuff, string>)
    requires tree.Some? ==> NodesResolve(tree.value, store)
    ensures r.Failure? <==> tree.None? || exists i :: 0 <= i < |tree.value| && Crashes(tree.value[i])
    ensures r.Success? ==> tree.Some? && r.value == PanelScan(tree.value, store, host, prev)
  {
    match tree
    case None => Failure("AttributeError")
    case Some(nodes) =>
      match PanelRefsAsWritten(nodes, store, host)
      case Failure(e) => Failure(e)
      case Success(refs) => Success(PanelStuff(PanelRows(refs, store, host), -1))
  }

  /** The tree links of the panel's rows. */
  function PanelLinks(rows: seq<PanelItem>): (ls: seq<Link>)
    ensures |ls| == |rows|
    ensures forall k :: 0 <= k < |rows| ==> ls[k] == Link(rows[k].parent, rows[k].expanded)
  {
    seq(|rows|, k requires 0 <= k < |rows| => Link(rows[k].parent, rows[k].expanded))
  }

  /**
   * `RemapFolder.poll`: Relocate is offered only in the node editor and only when the
   * selection is a folder row of the list.
   */
  function RemapFolderPoll(inNodeEditor: bool, s: PanelStuff): (r: bool)
    ensures r ==> 0 <= s.listIndex < |s.items| && s.items[s.listIndex].isFolder
    ensures !inNodeEditor ==> !r
  {
    inNodeEditor && 0 <= s.listIndex < |s.items| && s.items[s.listIndex].isFolder
  }

  /** `ResetFolders.execute`: the rows go, the selection index stays as it was. */
  function ResetFolders(s: PanelStuff): (r: PanelStuff)
    ensures |r.items| == 0 && r.listIndex == s.listIndex
    ensures !RemapFolderPoll(true, r)
  {
    s.(items := [])
  }

  /** A reference is accepted exactly when some node contributes it. */
  lemma {:induction false} PanelRefsMembership(nodes: seq<Node>, store: ImageStore, host: Host, r: Ref)
    requires NodesResolve(nodes, store)
    ensures r in PanelRefs(nodes, store, host) <==> exists i :: 0 <= i < |nodes| && PanelNodeRef(nodes[i], store, host) == Some(r)
    decreases |nodes|
  {
    if |nodes| > 0 {
      var init := nodes[..|nodes| - 1];
      assert NodesResolve(init, store);
      PanelRefsMembership(init, store, host, r);
      if exists i :: 0 <= i < |nodes| && PanelNodeRef(nodes[i], store, host) == Some(r) {
        var i :| 0 <= i < |nodes| && PanelNodeRef(nodes[i], store, host) == Some(r);
        if i < |nodes| - 1 {
          assert init[i] == nodes[i];
        }
      }
      if exists i :: 0 <= i < |init| && PanelNodeRef(init[i], store, host) == Some(r) {
        var i :| 0 <= i < |init| && PanelNodeRef(init[i], store, host) == Some(r);
        assert nodes[i] == init[i];
      }
    }
  }

  /** Every reference the panel accepts names a live, file-backed image. */
  lemma {:induction false} PanelRefsResolve(nodes: seq<Node>, store: ImageStore, host: Host)
    requires NodesResolve(nodes, store)
    ensures forall r :: r in PanelRefs(nodes, store, host) ==>
      r.image in store && !Synthetic(store[r.image].source) && r.dir != "" && r.name != ""
  {
    forall r | r in PanelRefs(nodes, store, host)
      ensures r.image in store && !Synthetic(store[r.image].source) && r.dir != "" && r.name != ""
    {
      PanelRefsMembership(nodes, store, host, r);
    }
  }

  /**
   * The rows form the tree the panel draws: each row records its own position, starts
   * collapsed, and points at an earlier row or -1; a file row hangs off the closest
   * folder row above it; a folder row's parent is the latest earlier folder that
   * contains it, and no folder row between the two contains it.
   */
  lemma PanelRowsStructure(refs: seq<Ref>, store: ImageStore, host: Host, k: int)
    requires 0 <= k < |PanelRows(refs, store, host)|
    ensures var rows := PanelRows(refs, store, host);
      var it := rows[k];
      && it.index == k && !it.expanded
      && (it.parent == -1 || 0 <= it.parent < k)
      && (!it.isFolder ==>
            && 0 <= it.parent < k && rows[it.parent].isFolder
            && forall i :: it.parent < i < k ==> !rows[i].isFolder)
      && (it.isFolder && it.parent != -1 ==>
            rows[it.parent].isFolder && host.isSubdir(it.path, rows[it.parent].path))
      && (it.isFolder ==>
            forall i :: it.parent < i < k && rows[i].isFolder ==> !host.isSubdir(it.path, rows[i].path))
    ensures var rows := PanelRows(refs, store, host);
      forall i, j :: 0 <= i < j < |rows| && rows[i].isFolder && rows[j].isFolder ==>
        Less(rows[i].path, rows[j].path, CodePoint)
  {
    var items := Rows(refs, CodePoint, host.isSubdir);
    RanksAreInjective();
    RowsShaped(refs, CodePoint, host.isSubdir);
    if items[k].isFolder {
      assert FolderPlaced(items, host.isSubdir, k);
    } else {
      assert FileUnderFolder(items, k);
    }
  }

  /**
   * The labels: a folder row under another folder row shows its path relative to that
   * folder, which contains it; a root folder row shows its full path; a file row shows
   * its filename.
   */
  lemma PanelLabels(refs: seq<Ref>, store: ImageStore, host: Host, k: int)
    requires 0 <= k < |PanelRows(refs, store, host)|
    ensures var rows := PanelRows(refs, store, host);
      var it := rows[k];
      && (it.isFolder && it.parent != -1 ==>
            && 0 <= it.parent < k && rows[it.parent].isFolder && host.isSubdir(it.path, rows[it.parent].path)
            && it.relativePath == host.osRelpath(it.path, rows[it.parent].path))
      && (it.isFolder && it.parent == -1 ==> it.relativePath == it.path)
      && (!it.isFolder ==> it.relativePath == it.path)
  {
    PanelRowsStructure(refs, store, host, k);
  }

  /**
   * A file row carries the name of the first image, in node order, that uses the file:
   * the first reference into the folder's directory with that filename. A folder row
   * carries none.
   */
  lemma PanelImageNames(refs: seq<Ref>, store: ImageStore, host: Host, k: int)
    requires forall r :: r in refs ==> r.image in store
    requires 0 <= k < |PanelRows(refs, store, host)|
    ensures var rows := PanelRows(refs, store, host);
      var it := rows[k];
      && (it.isFolder ==> it.imageName == "")
      && (!it.isFolder ==>
            && 0 <= it.parent < k
            && var first := Images(refs, rows[it.parent].path, it.path);
               |first| > 0 && first[0] in store && it.imageName == store[first[0]].name)
  {
    var items := Rows(refs, CodePoint, host.isSubdir);
    if !items[k].isFolder {
      RanksAreInjective();
      RowsFileRow(refs, CodePoint, host.isSubdir, k);
      var q := items[k].parent;
      var first := Images(refs, items[q].path, items[k].path);
      assert first[0] in store by {
        assert items[k].images[0] in items[k].images;
        ImagesMembership(refs, items[q].path, items[k].path, first[0]);
      }
    }
  }

  /** Right after a scan every row is collapsed, so `filter_items` shows exactly the root rows. */
  lemma PanelRowsShowRoots(refs: seq<Ref>, store: ImageStore, host: Host, k: int)
    requires 0 <= k < |PanelRows(refs, store, host)|
    ensures ParentsPrecede(PanelLinks(PanelRows(refs, store, host)))
    ensures Visible(PanelLinks(PanelRows(refs, store, host)), k) <==> PanelRows(refs, store, host)[k].parent == -1
  {
    var rows := PanelRows(refs, store, host);
    var ls := PanelLinks(rows);
    forall j | 0 <= j < |ls|
      ensures ls[j].parent == -1 || 0 <= ls[j].parent < j
    {
      PanelRowsStructure(refs, store, host, j);
    }
    if rows[k].parent != -1 {
      assert rows[k].parent in Ancestors(ls, k);
      PanelRowsStructure(refs, store, host, rows[k].parent);
    }
  }
}
