/**
 * The Texture Locator's scan and its poll guard. A scan reads every node that carries
 * an image with a non-empty file path, splits the image's absolute path into directory
 * and filename, groups the references by directory, orders the directories, lays out
 * one folder row per directory followed by its file rows, and carries the old selection
 * over to the new rows.
 */
module Locator {
  import opened Wrappers
  import opened Seqs
  import opened HostApi
  import opened LexOrder
  import opened PathIndex
  import opened ListItems
  import opened TreeBuilder
  import opened Selection
  import opened ScanFacts

  /** The add-on's working storage (`MyStuff`). */
  datatype Stuff = Stuff(items: seq<Item>, listIndex: int, materialName: string, refreshRequired: bool)

  /**
   * `show_select_or_move`: the Select, Change File and Change Folder buttons are offered
   * only in the shader node editor and only when the selection is a row of the list, so
   * the operators read the selected row without Python's negative indexing.
   */
  function ShowSelectOrMove(inShaderEditor: bool, s: Stuff): (r: bool)
    ensures r ==> 0 <= s.listIndex < |s.items| && PyAt(s.items, s.listIndex) == s.items[s.listIndex]
    ensures !inShaderEditor || s.listIndex < 0 || |s.items| <= s.listIndex ==> !r
  {
    inShaderEditor && 0 <= s.listIndex < |s.items|
  }

  /**
   * The reference a node contributes: a node with an image whose file path is non-empty
   * and whose absolute path splits into a non-empty directory and filename.
   */
  function NodeRef(n: Node, store: ImageStore, host: Host): (r: Option<Ref>)
    requires n.image.Some? ==> n.image.value in store
    ensures r.Some? <==> (n.image.Some? && store[n.image.value].filepath != ""
      && host.split(host.abspath(store[n.image.value].filepath)).0 != ""
      && host.split(host.abspath(store[n.image.value].filepath)).1 != "")
    ensures r.Some? ==> (r.value.image == n.image.value
      && (r.value.dir, r.value.name) == host.split(host.abspath(store[r.value.image].filepath)))
  {
    match n.image
    case None => None
    case Some(id) =>
      var img := store[id];
      if img.filepath == "" then None
      else
        var (path, name) := host.split(host.abspath(img.filepath));
        if path != "" && name != "" then Some(Ref(path, name, id)) else None
  }

  /** The references of the nodes, in node order. */
  function Refs(nodes: seq<Node>, store: ImageStore, host: Host): seq<Ref>
    requires NodesResolve(nodes, store)
    decreases |nodes|
  {
    if |nodes| == 0 then []
    else
      var init := nodes[..|nodes| - 1];
      assert NodesResolve(init, store);
      Refs(init, store, host) + match NodeRef(nodes[|nodes| - 1], store, host)
        case Some(r) => [r]
        case None => []
  }

  /** A reference is accepted exactly when some node contributes it. */
  lemma {:induction false} RefsMembership(nodes: seq<Node>, store: ImageStore, host: Host, r: Ref)
    requires NodesResolve(nodes, store)
    ensures r in Refs(nodes, store, host) <==> exists i :: 0 <= i < |nodes| && NodeRef(nodes[i], store, host) == Some(r)
    decreases |nodes|
  {
    if |nodes| > 0 {
      var init := nodes[..|nodes| - 1];
      assert NodesResolve(init, store);
      RefsMembership(init, store, host, r);
      if exists i :: 0 <= i < |nodes| && NodeRef(nodes[i], store, host) == Some(r) {
        var i :| 0 <= i < |nodes| && NodeRef(nodes[i], store, host) == Some(r);
        if i < |nodes| - 1 {
          assert init[i] == nodes[i];
        }
      }
      if exists i :: 0 <= i < |init| && NodeRef(init[i], store, host) == Some(r) {
        var i :| 0 <= i < |init| && NodeRef(init[i], store, host) == Some(r);
        assert nodes[i] == init[i];
      }
    }
  }

  /** Every accepted reference has a non-empty directory and filename. */
  lemma {:induction false} RefsAreNonEmpty(nodes: seq<Node>, store: ImageStore, host: Host)
    requires NodesResolve(nodes, store)
    ensures RefsNonEmpty(Refs(nodes, store, host))
  {
    forall r | r in Refs(nodes, store, host)
      ensures r.dir != "" && r.name != ""
    {
      RefsMembership(nodes, store, host, r);
    }
  }

  /**
   * `do_scan`, with directories ordered by `rank`: rebuilds the rows from the nodes and
   * carries the selection over. Reading the prev selection raises `IndexError` when the
   * prev `list_index` or the selected file's parent is out of range for the prev rows.
   */
  function ScanWith(nodes: seq<Node>, store: ImageStore, host: Host, prev: Stuff, rank: char -> int): (r: Result<Stuff, string>)
    requires NodesResolve(nodes, store)
    ensures r.Failure? <==> !CanCapture(prev.items, prev.listIndex)
    ensures r.Success? ==>
      && r.value.items == Rows(Refs(nodes, store, host), rank, host.isSubdir)
      && Linked(r.value.items)
      && (r.value.listIndex == -1 || 0 <= r.value.listIndex < |r.value.items|)
      && r.value.materialName == prev.materialName && r.value.refreshRequired == prev.refreshRequired
  {
    if !CanCapture(prev.items, prev.listIndex) then Failure("IndexError")
    else
      var items := Rows(Refs(nodes, store, host), rank, host.isSubdir);
      BuildLinked(Groups(Refs(nodes, store, host), rank), host.isSubdir);
      Success(prev.(items := items, listIndex := Reconcile(items, Capture(prev.items, prev.listIndex))))
  }

  /**
   * Where the old selection lands after a scan. Nothing selected stays nothing. A
   * selected folder goes to the folder row of the same directory, or to nothing when no
   * image lies there any more. A selected file goes to the same-named file row under the
   * folder row of its old directory, else to that folder row, else to nothing.
   */
  lemma ScanSelects(nodes: seq<Node>, store: ImageStore, host: Host, prev: Stuff, rank: char -> int)
    requires NodesResolve(nodes, store) && Injective(rank) && NamesNotDirs(Refs(nodes, store, host))
    requires CanCapture(prev.items, prev.listIndex) ==>
      RememberedApart(Refs(nodes, store, host), Capture(prev.items, prev.listIndex))
    ensures var r := ScanWith(nodes, store, host, prev, rank);
      r.Success? ==>
        var refs := Refs(nodes, store, host);
        var p := Capture(prev.items, prev.listIndex);
        var items := r.value.items;
        var k := r.value.listIndex;
        && (p == Prior("", "") ==> k == -1)
        && (p.oldPath != "" && p.oldParent == "" ==>
              && (k == -1 <==> forall x :: x in refs ==> x.dir != p.oldPath)
              && (k >= 0 ==> items[k].isFolder && items[k].path == p.oldPath))
        && (p.oldPath != "" && p.oldParent != "" ==>
              && (k == -1 <==> forall x :: x in refs ==> x.dir != p.oldParent)
              && (k >= 0 && items[k].isFolder ==>
                    && items[k].path == p.oldParent
                    && forall x :: x in refs ==> !(x.dir == p.oldParent && x.name == p.oldPath))
              && (k >= 0 && !items[k].isFolder ==>
                    && items[k].path == p.oldPath
                    && 0 <= items[k].parent < k && items[items[k].parent].isFolder
                    && items[items[k].parent].path == p.oldParent))
  {
    if CanCapture(prev.items, prev.listIndex) {
      var refs := Refs(nodes, store, host);
      var p := Capture(prev.items, prev.listIndex);
      var items := Rows(refs, rank, host.isSubdir);
      RefsAreNonEmpty(nodes, store, host);
      RowsSelectable(refs, rank, host.isSubdir);
      if p == Prior("", "") {
        SelectNothing(items, |items|);
      } else if p.oldPath != "" && p.oldParent == "" {
        RowsSelectFolder(refs, rank, host.isSubdir, p.oldPath);
      } else if p.oldPath != "" {
        RowsSelectFile(refs, rank, host.isSubdir, p.oldPath, p.oldParent);
      }
    }
  }

  /** The scan as written: directories in the order of Python's `sorted`, by code point. */
  function ScanAsWritten(nodes: seq<Node>, store: ImageStore, host: Host, prev: Stuff): Result<Stuff, string>
    requires NodesResolve(nodes, store)
  {
    ScanWith(nodes, store, host, prev, CodePoint)
  }

  /** The scan with directories ordered separator-first, which keeps every subtree contiguous. */
  function Scan(nodes: seq<Node>, store: ImageStore, host: Host, prev: Stuff): Result<Stuff, string>
    requires NodesResolve(nodes, store)
  {
    ScanWith(nodes, store, host, prev, SeparatorFirst)
  }

  /** An image has one file path, so every reference to it names the same directory and filename. */
  lemma RefOfImage(nodes: seq<Node>, store: ImageStore, host: Host, r1: Ref, r2: Ref)
    requires NodesResolve(nodes, store)
    requires r1 in Refs(nodes, store, host) && r2 in Refs(nodes, store, host) && r1.image == r2.image
    ensures r1 == r2
  {
    RefsMembership(nodes, store, host, r1);
    RefsMembership(nodes, store, host, r2);
  }

  /** `os.path.join` reassembles what `os.path.split` took apart. */
  ghost predicate SplitJoins(host: Host) {
    forall p :: host.join(host.split(p).0, host.split(p).1) == p
  }

  /**
   * `image_path` of a scanned file row is the joined directory and filename of every
   * image the row holds; when `join` undoes `split`, it is each image's absolute path.
   */
  lemma ImagePathOfScan(nodes: seq<Node>, store: ImageStore, host: Host, prev: Stuff, rank: char -> int, j: int, id: ImageId)
    requires NodesResolve(nodes, store) && Injective(rank)
    requires ScanWith(nodes, store, host, prev, rank).Success?
    requires var items := ScanWith(nodes, store, host, prev, rank).value.items;
      0 <= j < |items| && !items[j].isFolder && id in items[j].images
    ensures var items := ScanWith(nodes, store, host, prev, rank).value.items;
      && Linked(items) && id in store
      && var parts := host.split(host.abspath(store[id].filepath));
         && ImagePath(items, j, host) == Some(host.join(parts.0, parts.1))
         && (SplitJoins(host) ==> ImagePath(items, j, host) == Some(host.abspath(store[id].filepath)))
  {
    var refs := Refs(nodes, store, host);
    var items := Rows(refs, rank, host.isSubdir);
    RowsShaped(refs, rank, host.isSubdir);
    RowsFileRow(refs, rank, host.isSubdir, j);
    var q := items[j].parent;
    var d := items[q].path;
    var n := items[j].path;
    assert id in Images(refs, d, n);
    ImagesMembership(refs, d, n, id);
    RefsMembership(nodes, store, host, Ref(d, n, id));
  }

  /**
   * Scanning unchanged nodes again reproduces the same rows and keeps the selection on
   * the same row, provided no filename coincides with a directory path.
   */
  lemma RescanIsStable(nodes: seq<Node>, store: ImageStore, host: Host, prev: Stuff, rank: char -> int)
    requires NodesResolve(nodes, store) && Injective(rank)
    requires NamesNotDirs(Refs(nodes, store, host))
    requires ScanWith(nodes, store, host, prev, rank).Success?
    ensures var s := ScanWith(nodes, store, host, prev, rank).value;
      ScanWith(nodes, store, host, s, rank) == Success(s)
  {
    var s := ScanWith(nodes, store, host, prev, rank).value;
    var refs := Refs(nodes, store, host);
    RefsAreNonEmpty(nodes, store, host);
    RowsSelectable(refs, rank, host.isSubdir);
    ReconcileCapture(s.items, s.listIndex);
  }
}
