/**
 * Carrying the list selection over a rescan. Before the list is rebuilt the selected
 * row is remembered by identity, `(old_path, old_parent)`: a folder by its path, a file
 * by its name and its folder's path. While the new rows are emitted the selection
 * follows the first folder with a remembered path and then the same-named file under
 * it. The walk over the finished list below performs the same comparisons, in the same
 * order, as the interleaved loop of the scan.
 */
module Selection {
  import opened Tree
  import opened ListItems

  /** Python's `items[i]`: a negative index counts from the end. */
  function PyAt(items: seq<Item>, i: int): Item
    requires -|items| <= i < |items|
  {
    if i < 0 then items[|items| + i] else items[i]
  }

  /** The remembered selection: `old_path` and `old_parent`, "" when unused. */
  datatype Prior = Prior(oldPath: string, oldParent: string)

  /** The old selection can be read without an `IndexError`. */
  predicate CanCapture(items: seq<Item>, index: int) {
    index == -1
    || (-|items| <= index < |items|
        && (PyAt(items, index).isFolder || -|items| <= PyAt(items, index).parent < |items|))
  }

  /** Reads the identity of the selected row of the old list (`index == -1`: nothing selected). */
  function Capture(items: seq<Item>, index: int): Prior
    requires CanCapture(items, index)
  {
    if index == -1 then Prior("", "")
    else
      var item := PyAt(items, index);
      Prior(item.path, if item.isFolder then "" else PyAt(items, item.parent).path)
  }

  /** The loop state: the remembered identity and `new_index`. */
  datatype Walk = Walk(oldPath: string, oldParent: string, newIndex: int)

  /**
   * One row of the rebuild: a folder whose path matches either remembered path takes the
   * selection and clears `old_parent`; a file whose parent holds the selection and whose
   * name is `old_path` takes it and clears both.
   */
  function Step(w: Walk, item: Item, index: int): Walk {
    if item.isFolder then
      if item.path == w.oldPath || item.path == w.oldParent then Walk(w.oldPath, "", index) else w
    else
      if w.newIndex == item.parent && w.oldPath == item.path then Walk("", "", index) else w
  }

  /** The loop state after the first `n` rows. */
  function WalkTo(items: seq<Item>, prior: Prior, n: int): (w: Walk)
    requires 0 <= n <= |items|
    ensures -1 <= w.newIndex < n
    decreases n
  {
    if n == 0 then Walk(prior.oldPath, prior.oldParent, -1)
    else Step(WalkTo(items, prior, n - 1), items[n - 1], n - 1)
  }

  /** The new `list_index`: -1 or a row of the new list. */
  function Reconcile(items: seq<Item>, prior: Prior): (r: int)
    ensures r == -1 || 0 <= r < |items|
  {
    WalkTo(items, prior, |items|).newIndex
  }

  /** The last folder row before `n` with path `p`, or -1. */
  function FindFolder(items: seq<Item>, p: string, n: int): (r: int)
    requires 0 <= n <= |items|
    ensures -1 <= r < n
    ensures r >= 0 ==> items[r].isFolder && items[r].path == p
    ensures forall j :: r < j < n ==> !(items[j].isFolder && items[j].path == p)
    decreases n
  {
    if n == 0 then -1
    else if items[n - 1].isFolder && items[n - 1].path == p then n - 1
    else FindFolder(items, p, n - 1)
  }

  /** The first file row before `n` under row `q` with name `name`, or -1. */
  function FirstFile(items: seq<Item>, q: int, name: string, n: int): (r: int)
    requires 0 <= n <= |items|
    ensures -1 <= r < n
    ensures r >= 0 ==> !items[r].isFolder && items[r].parent == q && items[r].path == name
    ensures forall j :: 0 <= j < n && (r == -1 || j < r) ==>
      !(!items[j].isFolder && items[j].parent == q && items[j].path == name)
    decreases n
  {
    if n == 0 then -1
    else
      var f := FirstFile(items, q, name, n - 1);
      if f != -1 then f
      else if !items[n - 1].isFolder && items[n - 1].parent == q && items[n - 1].path == name then n - 1
      else -1
  }

  /** What a rebuild walk needs of the rows: non-empty paths and file rows with an earlier parent. */
  ghost predicate Walkable(items: seq<Item>) {
    forall j :: 0 <= j < |items| ==> items[j].path != "" && (items[j].isFolder || 0 <= items[j].parent < j)
  }

  /** No two folder rows share a path. */
  ghost predicate FolderPathsDistinct(items: seq<Item>) {
    forall i, j :: 0 <= i < j < |items| && items[i].isFolder && items[j].isFolder ==> items[i].path != items[j].path
  }

  /** No file row's name equals a folder row's path (true of real paths, which differ in separators). */
  ghost predicate NamesAreNotFolders(items: seq<Item>) {
    forall i, j :: 0 <= i < |items| && 0 <= j < |items| && items[i].isFolder && !items[j].isFolder ==>
      items[i].path != items[j].path
  }

  lemma {:induction false} FolderWalk(items: seq<Item>, p: string, n: int)
    requires Walkable(items) && 0 <= n <= |items| && p != ""
    requires forall j :: 0 <= j < |items| && !items[j].isFolder ==> items[j].path != p
    ensures WalkTo(items, Prior(p, ""), n) == Walk(p, "", FindFolder(items, p, n))
    decreases n
  {
    if n > 0 {
      FolderWalk(items, p, n - 1);
    }
  }

  /** A remembered folder selects the (last) folder row with the same path, or nothing. */
  lemma SelectFolder(items: seq<Item>, p: string)
    requires Walkable(items) && p != ""
    requires forall j :: 0 <= j < |items| && !items[j].isFolder ==> items[j].path != p
    ensures var r := Reconcile(items, Prior(p, ""));
      && (r == -1 <==> forall j :: 0 <= j < |items| ==> !(items[j].isFolder && items[j].path == p))
      && (r >= 0 ==> items[r].isFolder && items[r].path == p)
  {
    FolderWalk(items, p, |items|);
  }

  /** The loop state of a file selection after `n` rows. */
  function FileWalkState(items: seq<Item>, name: string, dir: string, n: int): Walk
    requires 0 <= n <= |items|
  {
    var q := FindFolder(items, dir, n);
    if q == -1 then Walk(name, dir, -1)
    else
      var f := FirstFile(items, q, name, n);
      if f == -1 then Walk(name, "", q) else Walk("", "", f)
  }

  lemma {:induction false} FileWalk(items: seq<Item>, name: string, dir: string, n: int)
    requires Walkable(items) && FolderPathsDistinct(items) && 0 <= n <= |items|
    requires name != "" && dir != ""
    requires forall j :: 0 <= j < |items| && items[j].isFolder ==> items[j].path != name
    ensures WalkTo(items, Prior(name, dir), n) == FileWalkState(items, name, dir, n)
    decreases n
  {
    if n > 0 {
      FileWalk(items, name, dir, n - 1);
      var q := FindFolder(items, dir, n - 1);
      var x := items[n - 1];
      if q != -1 && x.isFolder && x.path == dir {
        assert false;
      }
      assert x.path != "" && (x.isFolder || x.parent >= 0);
      if !x.isFolder {
        assert FindFolder(items, dir, n) == q;
        if q != -1 {
          var f := FirstFile(items, q, name, n - 1);
          if f == -1 && x.parent == q && x.path == name {
            assert FirstFile(items, q, name, n) == n - 1;
          } else {
            assert FirstFile(items, q, name, n) == f;
          }
        }
      }
    }
  }

  /**
   * A remembered file selects the first same-named file row under the folder row with
   * the remembered folder path; without such a file it selects that folder; without
   * such a folder it selects nothing.
   */
  lemma SelectFile(items: seq<Item>, name: string, dir: string)
    requires Walkable(items) && FolderPathsDistinct(items)
    requires name != "" && dir != ""
    requires forall j :: 0 <= j < |items| && items[j].isFolder ==> items[j].path != name
    ensures var r := Reconcile(items, Prior(name, dir));
      && (r == -1 <==> forall j :: 0 <= j < |items| ==> !(items[j].isFolder && items[j].path == dir))
      && (r >= 0 && items[r].isFolder ==>
            && items[r].path == dir
            && forall j :: 0 <= j < |items| ==> !(!items[j].isFolder && items[j].parent == r && items[j].path == name))
      && (r >= 0 && !items[r].isFolder ==>
            && items[r].path == name
            && 0 <= items[r].parent < |items|
            && items[items[r].parent].isFolder
            && items[items[r].parent].path == dir)
  {
    FileWalk(items, name, dir, |items|);
    var q := FindFolder(items, dir, |items|);
    if q != -1 {
      var f := FirstFile(items, q, name, |items|);
      if f != -1 {
        assert !items[f].isFolder;
      }
    }
  }

  /** Nothing remembered selects nothing. */
  lemma {:induction false} SelectNothing(items: seq<Item>, n: int)
    requires Walkable(items) && 0 <= n <= |items|
    ensures WalkTo(items, Prior("", ""), n) == Walk("", "", -1)
    decreases n
  {
    if n > 0 {
      SelectNothing(items, n - 1);
    }
  }

  /** Within one folder row no two file rows share a name. */
  ghost predicate FileNamesDistinct(items: seq<Item>) {
    forall i, j :: 0 <= i < j < |items| && !items[i].isFolder && !items[j].isFolder && items[i].parent == items[j].parent ==>
      items[i].path != items[j].path
  }

  /** Every file row hangs off a folder row. */
  ghost predicate FilesUnderFolders(items: seq<Item>)
    requires Walkable(items)
  {
    forall j :: 0 <= j < |items| && !items[j].isFolder ==> items[items[j].parent].isFolder
  }

  /**
   * The identity read from a row finds that same row again when the same rows are
   * rebuilt, and an empty selection stays empty.
   */
  lemma ReconcileCapture(items: seq<Item>, i: int)
    requires Walkable(items) && FilesUnderFolders(items)
    requires FolderPathsDistinct(items) && FileNamesDistinct(items) && NamesAreNotFolders(items)
    requires -1 <= i < |items|
    ensures CanCapture(items, i)
    ensures Reconcile(items, Capture(items, i)) == i
  {
    if i == -1 {
      SelectNothing(items, |items|);
    } else if items[i].isFolder {
      SelectFolder(items, items[i].path);
    } else {
      var q := items[i].parent;
      var name := items[i].path;
      var dir := items[q].path;
      assert Capture(items, i) == Prior(name, dir);
      SelectFile(items, name, dir);
    }
  }
}
