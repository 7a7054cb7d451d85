/**
 * The remap operators of the Texture Locator: `replace_path`, which keeps a blend-relative
 * image path relative when it can, Change File, which points every image of the selected
 * file row at a new file, and Change Folder, which re-roots every file row of the run below
 * the selected folder row under a new directory.
 */
module Remap {
  import opened Wrappers
  import opened Seqs
  import opened HostApi
  import opened Tree
  import opened ListItems
  import LexOrder
  import PathIndex
  import ScanFacts
  import Locator
  import TreeBuilder

  /** `filepath[:2] == '//'`: the path is relative to the blend file. */
  predicate IsBlendRelative(p: string) {
    |p| >= 2 && p[..2] == "//"
  }

  /** `bpy.path.relpath` produces a blend-relative path that `bpy.path.abspath` resolves back. */
  ghost predicate RelpathResolves(host: Host) {
    forall p :: host.relpath(p).Some? ==>
      IsBlendRelative(host.relpath(p).value) && host.abspath(host.relpath(p).value) == p
  }

  /**
   * `replace_path`: the new path of an image whose path was `current`. A blend-relative
   * image gets `bpy.path.relpath(newPath)`, or `newPath` itself when that raises
   * `ValueError` (`None` here); any other image gets `newPath`. Whatever form is stored,
   * it resolves to the new absolute path, and it stays blend-relative when it was and
   * `relpath` succeeded.
   */
  function ReplacePath(current: string, newPath: string, host: Host): (r: string)
    ensures !IsBlendRelative(current) || host.relpath(newPath).None? ==> r == newPath
    ensures RelpathResolves(host) && host.abspath(newPath) == newPath ==> host.abspath(r) == newPath
    ensures IsBlendRelative(current) && host.relpath(newPath).Some? ==> r == host.relpath(newPath).value
    ensures RelpathResolves(host) && IsBlendRelative(current) && host.relpath(newPath).Some? ==> IsBlendRelative(r)
  {
    if IsBlendRelative(current) then
      match host.relpath(newPath)
      case Some(rel) => rel
      case None => newPath
    else newPath
  }

  /** One image after `replace_path(image, newPath)`: only its file path changes. */
  function Retargeted(img: Image, newPath: string, host: Host): Image {
    img.(filepath := ReplacePath(img.filepath, newPath, host))
  }

  /**
   * A second `replace_path` with the same absolute target changes nothing more, when
   * `relpath` yields blend-relative paths: an image listed twice ends where it would
   * have ended after one call.
   */
  lemma ReplacePathIdempotent(current: string, newPath: string, host: Host)
    requires RelpathResolves(host) && !IsBlendRelative(newPath)
    ensures ReplacePath(ReplacePath(current, newPath, host), newPath, host) == ReplacePath(current, newPath, host)
  {
  }

  /** Retargeting an image twice to the same absolute path is retargeting it once. */
  lemma RetargetedIdempotent(img: Image, newPath: string, host: Host)
    ensures RelpathResolves(host) && !IsBlendRelative(newPath) ==>
      Retargeted(Retargeted(img, newPath, host), newPath, host) == Retargeted(img, newPath, host)
  {
  }

  /** `for img in images: replace_path(img.img, newPath)` on the image store. */
  function RetargetAll(store: ImageStore, ids: seq<ImageId>, newPath: string, host: Host): (r: ImageStore)
    requires forall id :: id in ids ==> id in store
    ensures r.Keys == store.Keys
    ensures forall id :: id in store && id !in ids ==> r[id] == store[id]
    ensures NoDup(ids) || (RelpathResolves(host) && !IsBlendRelative(newPath)) ==>
      forall id :: id in ids ==> r[id] == Retargeted(store[id], newPath, host)
    decreases |ids|
  {
    if |ids| == 0 then store
    else
      var id := ids[0];
      RetargetedIdempotent(store[id], newPath, host);
      RetargetAll(store[id := Retargeted(store[id], newPath, host)], ids[1..], newPath, host)
  }

  /** The result of Change File: the images, `refresh_required`, and whether the error was reported. */
  datatype FileOutcome = FileOutcome(store: ImageStore, refreshRequired: bool, error: bool)

  /**
   * Change File on the selected row `index` with the chosen file `newFile`. A missing
   * file reports an error and changes nothing; otherwise every image of the row is
   * retargeted and the list is marked for a rescan.
   */
  function ChangeFile(items: seq<Item>, index: int, newFile: string, store: ImageStore,
                      refresh: bool, host: Host): (o: FileOutcome)
    requires 0 <= index < |items| && ImagesResolve(items, store)
    ensures o.error <==> !host.pathExists(newFile)
    ensures o.error ==> o.store == store && o.refreshRequired == refresh
    ensures !o.error ==> o.refreshRequired
    ensures o.store.Keys == store.Keys
    ensures forall id :: id in store && id !in items[index].images ==> o.store[id] == store[id]
    ensures !o.error && (NoDup(items[index].images) || (RelpathResolves(host) && !IsBlendRelative(newFile))) ==>
      forall id :: id in items[index].images ==> o.store[id] == Retargeted(store[id], newFile, host)
  {
    if !host.pathExists(newFile) then FileOutcome(store, refresh, true)
    else FileOutcome(RetargetAll(store, items[index].images, newFile, host), true, false)
  }

  /**
   * The re-rooted file for row `j` when folder row `folder` moves to `newDir`:
   * `join(newDir, relpath(image_path(items, j), folder path))`, or nothing when
   * `image_path` gives no path (a root row) or an empty one.
   */
  function Candidate(items: seq<Item>, folder: int, j: int, newDir: string, host: Host): Option<string>
    requires Linked(items) && 0 <= folder < |items| && 0 <= j < |items|
  {
    var local := ImagePath(items, j, host);
    if local.Some? && local.value != "" then
      Some(host.join(newDir, host.osRelpath(local.value, items[folder].path)))
    else None
  }

  /** Row `j` is a file row whose re-rooted file exists: its images are moved. */
  ghost predicate Hit(items: seq<Item>, folder: int, j: int, newDir: string, host: Host)
    requires Linked(items) && 0 <= folder < |items| && 0 <= j < |items|
  {
    var c := Candidate(items, folder, j, newDir, host);
    !items[j].isFolder && c.Some? && host.pathExists(c.value)
  }

  /** Row `j` is a file row whose re-rooted file does not exist: it counts as missing. */
  ghost predicate Miss(items: seq<Item>, folder: int, j: int, newDir: string, host: Host)
    requires Linked(items) && 0 <= folder < |items| && 0 <= j < |items|
  {
    var c := Candidate(items, folder, j, newDir, host);
    !items[j].isFolder && c.Some? && !host.pathExists(c.value)
  }

  /** Per row: whether it is a missing row after `folder`. */
  ghost function MissFlags(items: seq<Item>, folder: int, newDir: string, host: Host): (fs: seq<bool>)
    requires Linked(items) && 0 <= folder < |items|
    ensures |fs| == |items|
  {
    seq(|items|, j requires 0 <= j < |items| => folder < j && Miss(items, folder, j, newDir, host))
  }

  lemma MissFlagsAt(items: seq<Item>, folder: int, newDir: string, host: Host, j: int)
    requires Linked(items) && 0 <= folder < |items| && 0 <= j < |items|
    ensures MissFlags(items, folder, newDir, host)[j] == (folder < j && Miss(items, folder, j, newDir, host))
  {
  }

  /** The flagged positions in `lo .. n - 1`. */
  ghost function Flagged(fs: seq<bool>, lo: int, n: int): set<int>
    requires 0 <= lo <= n <= |fs|
  {
    set j | lo <= j < n && fs[j]
  }

  /** The missing rows among `folder + 1 .. n - 1`. */
  ghost function Missed(items: seq<Item>, folder: int, n: int, newDir: string, host: Host): (m: set<int>)
    requires Linked(items) && 0 <= folder < n <= |items|
    ensures forall j :: j in m <==> folder < j < n && Miss(items, folder, j, newDir, host)
  {
    Flagged(MissFlags(items, folder, newDir, host), folder + 1, n)
  }

  /** Where the images of row `j` are moved: the re-rooted file of a hit, nothing otherwise. */
  ghost function MoveTarget(items: seq<Item>, folder: int, j: int, newDir: string, host: Host): (t: Option<string>)
    requires Linked(items) && 0 <= folder < |items| && 0 <= j < |items|
    ensures t.Some? <==> Hit(items, folder, j, newDir, host)
    ensures t.Some? ==> t == Candidate(items, folder, j, newDir, host)
  {
    if Hit(items, folder, j, newDir, host) then Candidate(items, folder, j, newDir, host) else None
  }

  /** The move targets of all rows: those of the rows after `folder`, nothing for the others. */
  ghost function MoveTargets(items: seq<Item>, folder: int, newDir: string, host: Host): (ts: seq<Option<string>>)
    requires Linked(items) && 0 <= folder < |items|
    ensures |ts| == |items|
  {
    seq(|items|, j requires 0 <= j < |items| => if folder < j then MoveTarget(items, folder, j, newDir, host) else None)
  }

  lemma MoveTargetsAt(items: seq<Item>, folder: int, newDir: string, host: Host, j: int)
    requires Linked(items) && 0 <= folder < |items| && 0 <= j < |items|
    ensures MoveTargets(items, folder, newDir, host)[j] == if folder < j then MoveTarget(items, folder, j, newDir, host) else None
  {
  }

  /** The image lists of all rows. */
  function ImageLists(items: seq<Item>): (rows: seq<seq<ImageId>>)
    ensures |rows| == |items| && forall j :: 0 <= j < |items| ==> rows[j] == items[j].images
  {
    seq(|items|, j requires 0 <= j < |items| => items[j].images)
  }

  /** Images of no moved row before `n` still have their old record. */
  ghost predicate Untouched(rows: seq<seq<ImageId>>, ts: seq<Option<string>>, n: int, store: ImageStore, s: ImageStore)
    requires |ts| == |rows| && 0 <= n <= |rows|
  {
    && s.Keys == store.Keys
    && forall id :: (id in store && (forall j :: 0 <= j < n && ts[j].Some? ==> id !in rows[j])) ==> s[id] == store[id]
  }

  /** Images of each moved row before `n` point at that row's target. */
  ghost predicate Moved(rows: seq<seq<ImageId>>, ts: seq<Option<string>>, n: int, host: Host, store: ImageStore, s: ImageStore)
    requires |ts| == |rows| && 0 <= n <= |rows|
  {
    forall j, id :: 0 <= j < n && ts[j].Some? && id in rows[j] ==>
      id in s && id in store && s[id] == Retargeted(store[id], ts[j].value, host)
  }

  /** Every image listed in the rows is in the store. */
  ghost predicate RowsResolve(rows: seq<seq<ImageId>>, store: ImageStore) {
    forall j, id :: 0 <= j < |rows| && id in rows[j] ==> id in store
  }

  /** No image is listed under two rows, nor twice under one. */
  ghost predicate Disjoint(rows: seq<seq<ImageId>>) {
    && (forall j :: 0 <= j < |rows| ==> NoDup(rows[j]))
    && (forall i, j, id :: 0 <= i < j < |rows| && id in rows[i] ==> id !in rows[j])
  }

  /** No image is listed under two rows of the list, nor twice under one. */
  ghost predicate ImagesDisjoint(items: seq<Item>) {
    Disjoint(ImageLists(items))
  }

  /** The images after visiting row `n`: moved to its target if it has one. */
  function Visit(rows: seq<seq<ImageId>>, ts: seq<Option<string>>, n: int, host: Host, s: ImageStore): ImageStore
    requires |ts| == |rows| && 0 <= n < |rows|
    requires forall id :: id in rows[n] ==> id in s
  {
    if ts[n].Some? then RetargetAll(s, rows[n], ts[n].value, host) else s
  }

  /** The images after visiting rows `lo .. n - 1` in order. */
  function VisitAll(rows: seq<seq<ImageId>>, ts: seq<Option<string>>, lo: int, n: int, host: Host, store: ImageStore): (r: ImageStore)
    requires |ts| == |rows| && 0 <= lo <= n <= |rows| && RowsResolve(rows, store)
    ensures r.Keys == store.Keys
    decreases n
  {
    if n == lo then store else Visit(rows, ts, n - 1, host, VisitAll(rows, ts, lo, n - 1, host, store))
  }

  /** Visiting rows `lo .. n - 1` leaves the images of rows without a target untouched. */
  lemma {:induction false} VisitAllUntouched(rows: seq<seq<ImageId>>, ts: seq<Option<string>>, lo: int, n: int, host: Host, store: ImageStore)
    requires |ts| == |rows| && 0 <= lo <= n <= |rows| && RowsResolve(rows, store)
    requires forall j :: 0 <= j < lo ==> ts[j].None?
    ensures Untouched(rows, ts, n, store, VisitAll(rows, ts, lo, n, host, store))
    decreases n
  {
    if n > lo {
      VisitAllUntouched(rows, ts, lo, n - 1, host, store);
      VisitKeepsUntouched(rows, ts, n - 1, host, store, VisitAll(rows, ts, lo, n - 1, host, store));
    }
  }

  /** With disjoint rows, visiting rows `lo .. n - 1` moves every image of a row to its target. */
  lemma {:induction false} VisitAllMoved(rows: seq<seq<ImageId>>, ts: seq<Option<string>>, lo: int, n: int, host: Host, store: ImageStore)
    requires |ts| == |rows| && 0 <= lo <= n <= |rows| && RowsResolve(rows, store) && Disjoint(rows)
    requires forall j :: 0 <= j < lo ==> ts[j].None?
    ensures Moved(rows, ts, n, host, store, VisitAll(rows, ts, lo, n, host, store))
    decreases n
  {
    if n > lo {
      VisitAllMoved(rows, ts, lo, n - 1, host, store);
      MovedStep(rows, ts, lo, n - 1, host, store);
    }
  }

  /** One more visit keeps the moved images moved. */
  lemma MovedStep(rows: seq<seq<ImageId>>, ts: seq<Option<string>>, lo: int, n: int, host: Host, store: ImageStore)
    requires |ts| == |rows| && 0 <= lo <= n < |rows| && RowsResolve(rows, store) && Disjoint(rows)
    requires forall j :: 0 <= j < lo ==> ts[j].None?
    requires Moved(rows, ts, n, host, store, VisitAll(rows, ts, lo, n, host, store))
    ensures Moved(rows, ts, n + 1, host, store, VisitAll(rows, ts, lo, n + 1, host, store))
  {
    VisitAllUntouched(rows, ts, lo, n, host, store);
    VisitKeepsMoved(rows, ts, n, host, store, VisitAll(rows, ts, lo, n, host, store));
  }

  lemma VisitKeepsUntouched(rows: seq<seq<ImageId>>, ts: seq<Option<string>>, n: int, host: Host, store: ImageStore, s: ImageStore)
    requires |ts| == |rows| && 0 <= n < |rows|
    requires RowsResolve(rows, store)
    requires Untouched(rows, ts, n, store, s)
    ensures Untouched(rows, ts, n + 1, store, Visit(rows, ts, n, host, s))
  {
  }

  lemma VisitKeepsMoved(rows: seq<seq<ImageId>>, ts: seq<Option<string>>, n: int, host: Host, store: ImageStore, s: ImageStore)
    requires |ts| == |rows| && 0 <= n < |rows| && Disjoint(rows)
    requires RowsResolve(rows, store)
    requires Untouched(rows, ts, n, store, s) && Moved(rows, ts, n, host, store, s)
    ensures Moved(rows, ts, n + 1, host, store, Visit(rows, ts, n, host, s))
  {
    var s' := Visit(rows, ts, n, host, s);
    forall j, id | 0 <= j < n + 1 && ts[j].Some? && id in rows[j]
      ensures s'[id] == Retargeted(store[id], ts[j].value, host)
    {
      if j < n {
        if ts[n].Some? {
          assert id !in rows[n];
        }
      } else {
        assert s[id] == store[id];
      }
    }
  }

  /** One more position adds one flagged position exactly when it is flagged. */
  lemma FlaggedStep(fs: seq<bool>, lo: int, n: int)
    requires 0 <= lo <= n < |fs|
    ensures |Flagged(fs, lo, n + 1)| == |Flagged(fs, lo, n)| + (if fs[n] then 1 else 0)
  {
    if fs[n] {
      assert Flagged(fs, lo, n + 1) == Flagged(fs, lo, n) + {n};
    } else {
      assert Flagged(fs, lo, n + 1) == Flagged(fs, lo, n);
    }
  }

  /** The number of flagged positions in `lo .. n - 1`. */
  function Count(fs: seq<bool>, lo: int, n: int): nat
    requires 0 <= lo <= n <= |fs|
    decreases n
  {
    if n == lo then 0 else Count(fs, lo, n - 1) + if fs[n - 1] then 1 else 0
  }

  /** Counting flags one by one gives the size of the set of flagged positions. */
  lemma {:induction false} CountFlagged(fs: seq<bool>, lo: int, n: int)
    requires 0 <= lo <= n <= |fs|
    ensures Count(fs, lo, n) == |Flagged(fs, lo, n)|
    decreases n
  {
    if n == lo {
      assert Flagged(fs, lo, n) == {};
    } else {
      CountFlagged(fs, lo, n - 1);
      FlaggedStep(fs, lo, n - 1);
    }
  }

  /** Some position before `n` has a target. */
  function AnyTarget(ts: seq<Option<string>>, n: int): (b: bool)
    requires 0 <= n <= |ts|
    ensures b <==> exists j :: 0 <= j < n && ts[j].Some?
    decreases n
  {
    n > 0 && (ts[n - 1].Some? || AnyTarget(ts, n - 1))
  }

  /** Some row before `n` has a move target exactly when some row after `folder` and before `n` is a hit. */
  lemma HitsAreTargets(items: seq<Item>, folder: int, n: int, newDir: string, host: Host)
    requires Linked(items) && 0 <= folder < |items| && 0 <= n <= |items|
    ensures AnyTarget(MoveTargets(items, folder, newDir, host), n)
      <==> (exists j :: folder < j < n && Hit(items, folder, j, newDir, host))
  {
    var ts := MoveTargets(items, folder, newDir, host);
    if AnyTarget(ts, n) {
      var j :| 0 <= j < n && ts[j].Some?;
      assert folder < j < n && Hit(items, folder, j, newDir, host);
    }
    if exists j :: folder < j < n && Hit(items, folder, j, newDir, host) {
      var j :| folder < j < n && Hit(items, folder, j, newDir, host);
      assert ts[j].Some?;
    }
  }

  /** The result of Change Folder: the images, `refresh_required`, the missing count, the warning. */
  datatype FolderOutcome = FolderOutcome(store: ImageStore, refreshRequired: bool, missing: nat, warning: bool)

  /**
   * What Change Folder promises, with `e` the end of the run after row `index`:
   * `missing` counts the missing rows of the run and the warning is issued iff it is
   * not zero; `refresh_required` ends up set iff it was set or some row of the run is a
   * hit; images of no hit keep their record; and with disjoint image lists every image
   * of a hit points at that row's re-rooted file.
   */
  ghost predicate FolderSpec(items: seq<Item>, index: int, newDir: string, host: Host,
                             store: ImageStore, refresh: bool, o: FolderOutcome)
    requires Linked(items) && 0 <= index < |items| && ImagesResolve(items, store)
  {
    var e := RunEnd(Links(items), index, index + 1);
    && o.missing == |Missed(items, index, e, newDir, host)|
    && (o.warning <==> o.missing != 0)
    && (o.refreshRequired <==> refresh || exists j :: index < j < e && Hit(items, index, j, newDir, host))
    && Untouched(ImageLists(items), MoveTargets(items, index, newDir, host), e, store, o.store)
    && (ImagesDisjoint(items) ==> Moved(ImageLists(items), MoveTargets(items, index, newDir, host), e, host, store, o.store))
  }

  /** The flags accumulated over the rows before `e` give the missing count and the refresh flag. */
  lemma RunCounts(items: seq<Item>, index: int, e: int, newDir: string, host: Host, refresh: bool, missing: nat, refreshed: bool)
    requires Linked(items) && 0 <= index < e <= |items|
    requires refreshed == (refresh || AnyTarget(MoveTargets(items, index, newDir, host), e))
    requires missing == Count(MissFlags(items, index, newDir, host), index + 1, e)
    ensures missing == |Missed(items, index, e, newDir, host)|
    ensures refreshed <==> refresh || exists j :: index < j < e && Hit(items, index, j, newDir, host)
  {
    HitsAreTargets(items, index, e, newDir, host);
    CountFlagged(MissFlags(items, index, newDir, host), index + 1, e);
  }

  /** Visiting rows `lo .. e - 1`, none before `lo` having a target: moved rows moved, the rest untouched. */
  lemma Sweep(rows: seq<seq<ImageId>>, ts: seq<Option<string>>, lo: int, e: int, host: Host, store: ImageStore, s: ImageStore)
    requires |ts| == |rows| && 0 <= lo <= e <= |rows| && RowsResolve(rows, store)
    requires forall j :: 0 <= j < lo ==> ts[j].None?
    requires s == VisitAll(rows, ts, lo, e, host, store)
    ensures Untouched(rows, ts, e, store, s)
    ensures Disjoint(rows) ==> Moved(rows, ts, e, host, store, s)
  {
    VisitAllUntouched(rows, ts, lo, e, host, store);
    if Disjoint(rows) {
      VisitAllMoved(rows, ts, lo, e, host, store);
    }
  }

  /** The images after visiting the rows `index + 1 .. e - 1`: moved rows moved, the rest untouched. */
  lemma RunImages(items: seq<Item>, index: int, e: int, newDir: string, host: Host, store: ImageStore, s: ImageStore)
    requires Linked(items) && 0 <= index < e <= |items| && RowsResolve(ImageLists(items), store)
    requires s == VisitAll(ImageLists(items), MoveTargets(items, index, newDir, host), index + 1, e, host, store)
    ensures Untouched(ImageLists(items), MoveTargets(items, index, newDir, host), e, store, s)
    ensures ImagesDisjoint(items) ==> Moved(ImageLists(items), MoveTargets(items, index, newDir, host), e, host, store, s)
  {
    NoTargetsUpTo(items, index, newDir, host);
    Sweep(ImageLists(items), MoveTargets(items, index, newDir, host), index + 1, e, host, store, s);
  }

  /**
   * The rows of a scan never list an image twice: a file row holds each of its images
   * once, a folder row none, and an image's one file path puts it under one directory
   * and one filename, hence one file row.
   */
  lemma ScanImagesDisjoint(nodes: seq<Node>, store: ImageStore, host: Host, rank: char -> int)
    requires NodesResolve(nodes, store) && LexOrder.Injective(rank)
    ensures ImagesDisjoint(ScanFacts.Rows(Locator.Refs(nodes, store, host), rank, host.isSubdir))
  {
    var refs := Locator.Refs(nodes, store, host);
    var items := ScanFacts.Rows(refs, rank, host.isSubdir);
    var rows := ImageLists(items);
    forall j | 0 <= j < |rows|
      ensures NoDup(rows[j])
    {
      if items[j].isFolder {
        ScanFacts.RowsFolderImages(refs, rank, host.isSubdir, j);
      } else {
        ScanFacts.RowsFileImages(refs, rank, host.isSubdir, j);
      }
    }
    forall i, j, id | 0 <= i < j < |rows| && id in rows[i]
      ensures id !in rows[j]
    {
      ScanImageOnce(nodes, store, host, rank, i, j, id);
    }
  }

  /** An image listed under row `i` is not listed under a later row `j`. */
  lemma ScanImageOnce(nodes: seq<Node>, store: ImageStore, host: Host, rank: char -> int, i: int, j: int, id: ImageId)
    requires NodesResolve(nodes, store) && LexOrder.Injective(rank)
    requires var items := ScanFacts.Rows(Locator.Refs(nodes, store, host), rank, host.isSubdir);
      0 <= i < j < |items| && id in items[i].images
    ensures id !in ScanFacts.Rows(Locator.Refs(nodes, store, host), rank, host.isSubdir)[j].images
  {
    var refs := Locator.Refs(nodes, store, host);
    var items := ScanFacts.Rows(refs, rank, host.isSubdir);
    if items[i].isFolder {
      ScanFacts.RowsFolderImages(refs, rank, host.isSubdir, i);
    } else if items[j].isFolder {
      ScanFacts.RowsFolderImages(refs, rank, host.isSubdir, j);
    } else {
      ScanFacts.RowsFileImages(refs, rank, host.isSubdir, i);
      ScanFacts.RowsFileImages(refs, rank, host.isSubdir, j);
      var pi, pj := items[i].parent, items[j].parent;
      var r1 := PathIndex.Ref(items[pi].path, items[i].path, id);
      if pi == pj {
        ScanFacts.RowsFileNamesDistinct(refs, rank, host.isSubdir, i, j);
      } else {
        ScanFacts.RowsShaped(refs, rank, host.isSubdir);
        ScanFolderPathsDistinct(items, rank, host.isSubdir, pi, pj);
      }
      if id in items[j].images {
        Locator.RefOfImage(nodes, store, host, r1, PathIndex.Ref(items[pj].path, items[j].path, id));
        assert false;
      }
    }
  }

  /** Two different folder rows of shaped rows have different paths. */
  lemma ScanFolderPathsDistinct(items: seq<Item>, rank: char -> int, isSubdir: (string, string) -> bool, a: int, b: int)
    requires TreeBuilder.Shaped(items, rank, isSubdir)
    requires 0 <= a < |items| && 0 <= b < |items| && a != b && items[a].isFolder && items[b].isFolder
    ensures items[a].path != items[b].path
  {
    if a < b {
      LexOrder.LessIrreflexive(items[a].path, rank);
    } else {
      LexOrder.LessIrreflexive(items[b].path, rank);
    }
  }

  /** No row up to the folder row itself has a move target. */
  lemma NoTargetsUpTo(items: seq<Item>, folder: int, newDir: string, host: Host)
    requires Linked(items) && 0 <= folder < |items|
    ensures forall j :: 0 <= j < folder + 1 ==> MoveTargets(items, folder, newDir, host)[j].None?
  {
    forall j | 0 <= j < folder + 1
      ensures MoveTargets(items, folder, newDir, host)[j].None?
    {
      MoveTargetsAt(items, folder, newDir, host, j);
    }
  }

  /**
   * Change Folder on the selected row `index` with the chosen directory `newDir`: the
   * rows after it are visited while `is_child` holds; each file row with a re-rooted
   * candidate has its images moved when the candidate exists and counts as missing when
   * it does not.
   */
  method ChangeFolder(items: seq<Item>, index: int, newDir: string, store: ImageStore,
                      refresh: bool, host: Host) returns (o: FolderOutcome)
    requires Linked(items) && 0 <= index < |items| && ImagesResolve(items, store)
    ensures FolderSpec(items, index, newDir, host, store, refresh, o)
  {
    var s, missing, refreshed := SweepRun(items, index, newDir, store, refresh, host);
    ghost var e := RunEnd(Links(items), index, index + 1);
    RunCounts(items, index, e, newDir, host, refresh, missing, refreshed);
    RunImages(items, index, e, newDir, host, store, s);
    o := FolderOutcome(s, refreshed, missing, missing != 0);
  }

  /** The loop state of Change Folder: the images, `missing_files`, `refresh_required`. */
  datatype LoopState = LoopState(store: ImageStore, missing: nat, refreshed: bool)

  /** The loop state after visiting rows `index + 1 .. n - 1`. */
  ghost function SweepTo(items: seq<Item>, index: int, n: int, newDir: string, host: Host,
                         store: ImageStore, refresh: bool): LoopState
    requires Linked(items) && 0 <= index < n <= |items| && RowsResolve(ImageLists(items), store)
  {
    var ts := MoveTargets(items, index, newDir, host);
    LoopState(VisitAll(ImageLists(items), ts, index + 1, n, host, store),
          Count(MissFlags(items, index, newDir, host), index + 1, n),
          refresh || AnyTarget(ts, n))
  }

  /** The loop of Change Folder: the rows after `index` visited while `is_child` holds. */
  method SweepRun(items: seq<Item>, index: int, newDir: string, store: ImageStore,
                  refresh: bool, host: Host) returns (s: ImageStore, missing: nat, refreshed: bool)
    requires Linked(items) && 0 <= index < |items| && ImagesResolve(items, store)
    ensures RowsResolve(ImageLists(items), store)
    ensures var e := RunEnd(Links(items), index, index + 1);
      var ts := MoveTargets(items, index, newDir, host);
      && s == VisitAll(ImageLists(items), ts, index + 1, e, host, store)
      && refreshed == (refresh || AnyTarget(ts, e))
      && missing == Count(MissFlags(items, index, newDir, host), index + 1, e)
  {
    var ls := Links(items);
    ghost var e := RunEnd(ls, index, index + 1);
    assert RowsResolve(ImageLists(items), store);
    s := store;
    missing := 0;
    refreshed := refresh;
    var n := index + 1;
    while n < |items|
      invariant index + 1 <= n <= e
      invariant LoopState(s, missing, refreshed) == SweepTo(items, index, n, newDir, host, store, refresh)
    {
      var child := IsChild(ls, n, index);
      RunStep(ls, index, n, e, child);
      if !child {
        break;
      }
      s, missing, refreshed := VisitRow(items, index, n, newDir, host, store, refresh, s, missing, refreshed);
      n := n + 1;
    }
    assert n == e;
  }

  /**
   * The loop body of Change Folder for row `n`: a file row with a re-rooted candidate
   * has its images moved if the candidate exists and is counted as missing if not.
   */
  method VisitRow(items: seq<Item>, index: int, n: int, newDir: string, host: Host,
                  ghost store: ImageStore, ghost refresh: bool,
                  s: ImageStore, missing: nat, refreshed: bool)
    returns (s': ImageStore, missing': nat, refreshed': bool)
    requires Linked(items) && 0 <= index < n < |items| && RowsResolve(ImageLists(items), store)
    requires LoopState(s, missing, refreshed) == SweepTo(items, index, n, newDir, host, store, refresh)
    ensures LoopState(s', missing', refreshed') == SweepTo(items, index, n + 1, newDir, host, store, refresh)
  {
    ghost var ts := MoveTargets(items, index, newDir, host);
    MoveTargetsAt(items, index, newDir, host, n);
    MissFlagsAt(items, index, newDir, host, n);
    s', missing', refreshed' := s, missing, refreshed;
    if !items[n].isFolder {
      var local := ImagePath(items, n, host);
      if local.Some? && local.value != "" {
        var relative := host.osRelpath(local.value, items[index].path);
        var newFile := host.join(newDir, relative);
        if host.pathExists(newFile) {
          s' := RetargetAll(s, items[n].images, newFile, host);
          refreshed' := true;
        } else {
          missing' := missing + 1;
        }
      }
    }
  }
}
