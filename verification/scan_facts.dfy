/**
 * What the rows of a scan say about the references it was given: every file row is
 * one first-seen filename of its folder's directory and holds exactly the distinct
 * images that reference that file; every referenced file has its row; folder rows
 * are the referenced directories, once each.
 */
module ScanFacts {
  import opened Seqs
  import opened LexOrder
  import opened PathIndex
  import opened ListItems
  import opened TreeBuilder
  import opened Selection

  /** The directory groups of a scan, ordered by `rank`. */
  function Groups(refs: seq<Ref>, rank: char -> int): seq<Group> {
    Sort(Index(refs), DirOf, rank)
  }

  /** The rows a scan builds from its accepted references. */
  function Rows(refs: seq<Ref>, rank: char -> int, isSubdir: (string, string) -> bool): seq<Item> {
    Build(Groups(refs, rank), isSubdir)
  }

  /**
   * The groups account for the references: one group per referenced directory, no
   * directory twice, and each group lists its directory's first-seen files and images.
   */
  ghost predicate Covers(refs: seq<Ref>, gs: seq<Group>) {
    && DistinctKeys(gs, DirOf)
    && (forall k :: 0 <= k < |gs| ==> GroupMatches(refs, gs[k]) && gs[k].dir in Dirs(refs))
    && (forall d :: d in Dirs(refs) ==> exists k :: 0 <= k < |gs| && gs[k].dir == d)
  }

  lemma IndexCovers(refs: seq<Ref>)
    ensures Covers(refs, Index(refs))
  {
    var gs := Index(refs);
    var dirs := Dedup(Dirs(refs));
    IndexMatchesRefs(refs);
    DedupNoDup(Dirs(refs));
    forall i, j | 0 <= i < j < |gs|
      ensures DirOf(gs[i]) != DirOf(gs[j])
    {
      NoDupAt(dirs, i, j);
    }
    forall d | d in Dirs(refs)
      ensures exists k :: 0 <= k < |gs| && gs[k].dir == d
    {
      var k :| 0 <= k < |dirs| && dirs[k] == d;
      assert gs[k].dir == d;
    }
    forall k | 0 <= k < |gs|
      ensures gs[k].dir in Dirs(refs)
    {
      assert dirs[k] in dirs;
    }
  }

  /** Sorting groups with distinct directories orders them strictly and keeps them covering. */
  lemma SortCovers(refs: seq<Ref>, gs: seq<Group>, rank: char -> int)
    requires Injective(rank) && Covers(refs, gs)
    ensures SortedBy(Sort(gs, DirOf, rank), DirOf, rank)
    ensures Covers(refs, Sort(gs, DirOf, rank))
  {
    var r := Sort(gs, DirOf, rank);
    SortSorted(gs, DirOf, rank);
    forall i, j | 0 <= i < j < |r|
      ensures DirOf(r[i]) != DirOf(r[j])
    {
      if DirOf(r[i]) == DirOf(r[j]) {
        LessIrreflexive(DirOf(r[i]), rank);
      }
    }
    forall k | 0 <= k < |r|
      ensures GroupMatches(refs, r[k]) && r[k].dir in Dirs(refs)
    {
      assert r[k] in multiset(gs);
    }
    forall d | d in Dirs(refs)
      ensures exists k :: 0 <= k < |r| && r[k].dir == d
    {
      var i :| 0 <= i < |gs| && gs[i].dir == d;
      assert gs[i] in multiset(r);
    }
  }

  /** The groups of a scan are strictly ordered, cover the references, and are laid out as its rows. */
  lemma GroupsLaidOut(refs: seq<Ref>, rank: char -> int, isSubdir: (string, string) -> bool)
    requires Injective(rank)
    ensures SortedBy(Groups(refs, rank), DirOf, rank)
    ensures Covers(refs, Groups(refs, rank))
    ensures Layout(Groups(refs, rank), Rows(refs, rank, isSubdir), isSubdir)
  {
    IndexCovers(refs);
    SortCovers(refs, Index(refs), rank);
    BuildLayout(Groups(refs, rank), isSubdir);
  }

  /** Where a file row comes from: entry `j - parent - 1` of the group laid out at its parent. */
  lemma FileRowOf(gs: seq<Group>, items: seq<Item>, isSubdir: (string, string) -> bool, j: int)
    requires Layout(gs, items, isSubdir) && 0 <= j < |items| && !items[j].isFolder
    ensures var k := GroupOf(gs, j, |gs|);
      var o := Offset(gs, k);
      && items[j].parent == o && items[o].isFolder && items[o].path == gs[k].dir
      && 0 <= j - o - 1 < |gs[k].entries|
      && items[j].path == gs[k].entries[j - o - 1].filename
      && items[j].images == gs[k].entries[j - o - 1].images
  {
    RowKind(gs, items, isSubdir, j);
    var k := GroupOf(gs, j, |gs|);
    var o := Offset(gs, k);
    assert GroupLaidOut(gs, items, isSubdir, k);
    assert o + 1 + |gs[k].entries| == Offset(gs, k + 1);
    var e := j - o - 1;
    assert items[o + 1 + e] == Item(o, gs[k].entries[e].filename, false, true, gs[k].entries[e].images);
  }

  /** A folder row holds the directory of the group laid out at it. */
  lemma FolderRowOf(gs: seq<Group>, items: seq<Item>, isSubdir: (string, string) -> bool, j: int)
    requires Layout(gs, items, isSubdir) && 0 <= j < |items| && items[j].isFolder
    ensures items[j].path == gs[GroupOf(gs, j, |gs|)].dir
  {
    RowKind(gs, items, isSubdir, j);
    assert GroupLaidOut(gs, items, isSubdir, GroupOf(gs, j, |gs|));
  }

  /** An entry of a matching group is a first-seen filename with its distinct images, at least one. */
  lemma EntryOf(refs: seq<Ref>, g: Group, e: int)
    requires GroupMatches(refs, g) && 0 <= e < |g.entries|
    ensures var names := Dedup(Names(refs, g.dir));
      && e < |names| && g.entries[e].filename == names[e]
      && g.entries[e].images == Dedup(Images(refs, g.dir, names[e]))
      && g.entries[e].images != []
  {
    var n := g.entries[e].filename;
    assert n in Dedup(Names(refs, g.dir));
    NamesMembership(refs, g.dir, n);
    var r :| r in refs && r.dir == g.dir && r.name == n;
    ImagesMembership(refs, g.dir, n, r.image);
  }

  /**
   * File row `j` in terms of the references: its parent is an earlier folder row for
   * some directory `d`; the row is the `(j - parent - 1)`-th first-seen filename of `d`,
   * and its images are exactly the distinct images referencing that file, in first-seen
   * order, and there is at least one.
   */
  ghost predicate FileRowFacts(refs: seq<Ref>, items: seq<Item>, j: int)
    requires 0 <= j < |items|
  {
    var q := items[j].parent;
    && 0 <= q < j && items[q].isFolder
    && var d := items[q].path;
       var names := Dedup(Names(refs, d));
       && 0 <= j - q - 1 < |names|
       && items[j].path == names[j - q - 1]
       && items[j].images == Dedup(Images(refs, d, items[j].path))
       && items[j].images != []
  }

  /** A file row laid out from covering groups, in terms of the references. */
  lemma CoveredFileRow(refs: seq<Ref>, gs: seq<Group>, items: seq<Item>, isSubdir: (string, string) -> bool, j: int)
    requires Covers(refs, gs) && Layout(gs, items, isSubdir)
    requires 0 <= j < |items| && !items[j].isFolder
    ensures FileRowFacts(refs, items, j)
  {
    FileRowOf(gs, items, isSubdir, j);
    var k := GroupOf(gs, j, |gs|);
    EntryOf(refs, gs[k], j - items[j].parent - 1);
  }

  /** Every file row of a scan meets `FileRowFacts`. */
  lemma RowsFileRow(refs: seq<Ref>, rank: char -> int, isSubdir: (string, string) -> bool, j: int)
    requires Injective(rank)
    requires 0 <= j < |Rows(refs, rank, isSubdir)| && !Rows(refs, rank, isSubdir)[j].isFolder
    ensures FileRowFacts(refs, Rows(refs, rank, isSubdir), j)
  {
    GroupsLaidOut(refs, rank, isSubdir);
    CoveredFileRow(refs, Groups(refs, rank), Rows(refs, rank, isSubdir), isSubdir, j);
  }

  /** Entry `e` of group `k` is the file row right after the folder row and its `e` predecessors. */
  lemma EntryRow(gs: seq<Group>, items: seq<Item>, isSubdir: (string, string) -> bool, k: int, e: int)
    requires Layout(gs, items, isSubdir) && 0 <= k < |gs| && 0 <= e < |gs[k].entries|
    ensures var o := Offset(gs, k);
      && o + 1 + e < |items| && items[o].path == gs[k].dir
      && items[o + 1 + e] == Item(o, gs[k].entries[e].filename, false, true, gs[k].entries[e].images)
  {
    assert GroupLaidOut(gs, items, isSubdir, k);
  }

  /** The entry of covering groups that records reference `r`. */
  lemma {:induction false} EntryOfRef(refs: seq<Ref>, gs: seq<Group>, r: Ref) returns (k: int, e: int)
    requires Covers(refs, gs) && r in refs
    ensures 0 <= k < |gs| && gs[k].dir == r.dir
    ensures 0 <= e < |gs[k].entries| && gs[k].entries[e].filename == r.name
    ensures r.image in gs[k].entries[e].images
  {
    DirsMembership(refs, r.dir);
    k :| 0 <= k < |gs| && gs[k].dir == r.dir;
    assert GroupMatches(refs, gs[k]);
    var names := Dedup(Names(refs, r.dir));
    NamesMembership(refs, r.dir, r.name);
    e :| 0 <= e < |names| && names[e] == r.name;
    EntryOf(refs, gs[k], e);
    ImagesMembership(refs, r.dir, r.name, r.image);
  }

  /** A reference's file has a row laid out from covering groups. */
  lemma {:induction false} CoveredRef(refs: seq<Ref>, gs: seq<Group>, items: seq<Item>, isSubdir: (string, string) -> bool, r: Ref)
    requires Covers(refs, gs) && Layout(gs, items, isSubdir) && r in refs
    ensures exists j :: (0 <= j < |items| && !items[j].isFolder
        && 0 <= items[j].parent < j && items[items[j].parent].path == r.dir
        && items[j].path == r.name && r.image in items[j].images)
  {
    var k, e := EntryOfRef(refs, gs, r);
    EntryRow(gs, items, isSubdir, k, e);
    var o := Offset(gs, k);
    var j := o + 1 + e;
    assert items[j].parent == o && items[o].path == r.dir;
    assert 0 <= j < |items| && !items[j].isFolder
      && 0 <= items[j].parent < j && items[items[j].parent].path == r.dir
      && items[j].path == r.name && r.image in items[j].images;
  }

  /** Every reference has a file row: under a folder row for its directory, with its filename and image. */
  lemma {:induction false} RowsCoverRef(refs: seq<Ref>, rank: char -> int, isSubdir: (string, string) -> bool, r: Ref)
    requires Injective(rank) && r in refs
    ensures var items := Rows(refs, rank, isSubdir);
      exists j :: (0 <= j < |items| && !items[j].isFolder
        && 0 <= items[j].parent < j && items[items[j].parent].path == r.dir
        && items[j].path == r.name && r.image in items[j].images)
  {
    GroupsLaidOut(refs, rank, isSubdir);
    CoveredRef(refs, Groups(refs, rank), Rows(refs, rank, isSubdir), isSubdir, r);
  }

  /** Every folder row is a referenced directory. */
  lemma RowsFolderRow(refs: seq<Ref>, rank: char -> int, isSubdir: (string, string) -> bool, j: int)
    requires Injective(rank)
    requires 0 <= j < |Rows(refs, rank, isSubdir)| && Rows(refs, rank, isSubdir)[j].isFolder
    ensures exists r :: r in refs && r.dir == Rows(refs, rank, isSubdir)[j].path
  {
    GroupsLaidOut(refs, rank, isSubdir);
    FolderRowOf(Groups(refs, rank), Rows(refs, rank, isSubdir), isSubdir, j);
    DirsMembership(refs, Rows(refs, rank, isSubdir)[j].path);
  }

  /** A folder row lists no images: images belong to the file rows below it. */
  lemma RowsFolderImages(refs: seq<Ref>, rank: char -> int, isSubdir: (string, string) -> bool, j: int)
    requires Injective(rank)
    requires 0 <= j < |Rows(refs, rank, isSubdir)| && Rows(refs, rank, isSubdir)[j].isFolder
    ensures Rows(refs, rank, isSubdir)[j].images == []
  {
    GroupsLaidOut(refs, rank, isSubdir);
    RowKind(Groups(refs, rank), Rows(refs, rank, isSubdir), isSubdir, j);
    assert GroupLaidOut(Groups(refs, rank), Rows(refs, rank, isSubdir), isSubdir, GroupOf(Groups(refs, rank), j, |Groups(refs, rank)|));
  }

  /** The rows have the scan's structure, with folder paths strictly ascending in `rank`. */
  lemma RowsShaped(refs: seq<Ref>, rank: char -> int, isSubdir: (string, string) -> bool)
    requires Injective(rank)
    ensures Shaped(Rows(refs, rank, isSubdir), rank, isSubdir)
  {
    IndexCovers(refs);
    SortCovers(refs, Index(refs), rank);
    BuildShaped(Groups(refs, rank), rank, isSubdir);
  }

  /**
   * A file row holds each image that references its folder's directory and its filename,
   * each exactly once, and at least one.
   */
  lemma RowsFileImages(refs: seq<Ref>, rank: char -> int, isSubdir: (string, string) -> bool, j: int)
    requires Injective(rank)
    requires 0 <= j < |Rows(refs, rank, isSubdir)| && !Rows(refs, rank, isSubdir)[j].isFolder
    ensures var items := Rows(refs, rank, isSubdir);
      && 0 <= items[j].parent < j
      && items[j].images != [] && NoDup(items[j].images)
      && forall id :: id in items[j].images <==> Ref(items[items[j].parent].path, items[j].path, id) in refs
  {
    var items := Rows(refs, rank, isSubdir);
    RowsFileRow(refs, rank, isSubdir, j);
    var d := items[items[j].parent].path;
    DedupNoDup(Images(refs, d, items[j].path));
    forall id
      ensures id in items[j].images <==> Ref(d, items[j].path, id) in refs
    {
      ImagesMembership(refs, d, items[j].path, id);
    }
  }

  /** Every accepted reference has a non-empty directory and filename. */
  ghost predicate RefsNonEmpty(refs: seq<Ref>) {
    forall r :: r in refs ==> r.dir != "" && r.name != ""
  }

  /** No filename of a reference is also the directory of a reference. */
  ghost predicate NamesNotDirs(refs: seq<Ref>) {
    forall r, s :: r in refs && s in refs ==> r.name != s.dir
  }

  /** A file row's filename and a folder row's path come from the references. */
  lemma RowPathOfRef(refs: seq<Ref>, rank: char -> int, isSubdir: (string, string) -> bool, j: int)
    requires Injective(rank) && 0 <= j < |Rows(refs, rank, isSubdir)|
    ensures var x := Rows(refs, rank, isSubdir)[j];
      exists r :: r in refs && (if x.isFolder then r.dir == x.path else r.name == x.path)
  {
    var items := Rows(refs, rank, isSubdir);
    if items[j].isFolder {
      RowsFolderRow(refs, rank, isSubdir, j);
    } else {
      RowsFileRow(refs, rank, isSubdir, j);
      var d := items[items[j].parent].path;
      assert items[j].path in Dedup(Names(refs, d));
      NamesMembership(refs, d, items[j].path);
    }
  }

  /** Two file rows under one folder row have different filenames. */
  lemma RowsFileNamesDistinct(refs: seq<Ref>, rank: char -> int, isSubdir: (string, string) -> bool, i: int, j: int)
    requires Injective(rank)
    requires 0 <= i < j < |Rows(refs, rank, isSubdir)|
    requires var items := Rows(refs, rank, isSubdir);
      !items[i].isFolder && !items[j].isFolder && items[i].parent == items[j].parent
    ensures Rows(refs, rank, isSubdir)[i].path != Rows(refs, rank, isSubdir)[j].path
  {
    var items := Rows(refs, rank, isSubdir);
    RowsFileRow(refs, rank, isSubdir, i);
    RowsFileRow(refs, rank, isSubdir, j);
    var q := items[i].parent;
    var names := Dedup(Names(refs, items[q].path));
    DedupNoDup(Names(refs, items[q].path));
    NoDupAt(names, i - q - 1, j - q - 1);
  }

  /** The rows of a scan meet everything the selection carry-over needs. */
  lemma RowsSelectable(refs: seq<Ref>, rank: char -> int, isSubdir: (string, string) -> bool)
    requires Injective(rank) && RefsNonEmpty(refs) && NamesNotDirs(refs)
    ensures var items := Rows(refs, rank, isSubdir);
      && Walkable(items) && FilesUnderFolders(items)
      && FolderPathsDistinct(items) && FileNamesDistinct(items) && NamesAreNotFolders(items)
  {
    var items := Rows(refs, rank, isSubdir);
    forall j | 0 <= j < |items|
      ensures items[j].path != "" && (items[j].isFolder || 0 <= items[j].parent < j)
      ensures !items[j].isFolder ==> items[items[j].parent].isFolder
    {
      RowPathOfRef(refs, rank, isSubdir, j);
      if !items[j].isFolder {
        RowsFileRow(refs, rank, isSubdir, j);
      }
    }
    RowsShaped(refs, rank, isSubdir);
    forall i, j | 0 <= i < j < |items| && items[i].isFolder && items[j].isFolder
      ensures items[i].path != items[j].path
    {
      if items[i].path == items[j].path {
        LessIrreflexive(items[i].path, rank);
      }
    }
    forall i, j | 0 <= i < j < |items| && !items[i].isFolder && !items[j].isFolder && items[i].parent == items[j].parent
      ensures items[i].path != items[j].path
    {
      RowsFileNamesDistinct(refs, rank, isSubdir, i, j);
    }
    forall i, j | 0 <= i < |items| && 0 <= j < |items| && items[i].isFolder && !items[j].isFolder
      ensures items[i].path != items[j].path
    {
      RowPathOfRef(refs, rank, isSubdir, i);
      RowPathOfRef(refs, rank, isSubdir, j);
    }
  }

  /**
   * The remembered identity cannot be mistaken for the other kind of row: a remembered
   * folder path is no filename of the new references, and a remembered filename is no
   * directory of them.
   */
  ghost predicate RememberedApart(refs: seq<Ref>, p: Prior) {
    forall r :: r in refs ==> if p.oldParent == "" then r.name != p.oldPath else r.dir != p.oldPath
  }

  /** A folder row with path `d` exists in the rows of a scan exactly when some reference has directory `d`. */
  lemma RowsFolderOfDir(refs: seq<Ref>, rank: char -> int, isSubdir: (string, string) -> bool, d: string)
    requires Injective(rank) && RefsNonEmpty(refs) && NamesNotDirs(refs)
    ensures var items := Rows(refs, rank, isSubdir);
      (exists j :: 0 <= j < |items| && items[j].isFolder && items[j].path == d) <==> (exists r :: r in refs && r.dir == d)
  {
    var items := Rows(refs, rank, isSubdir);
    RowsSelectable(refs, rank, isSubdir);
    if j :| 0 <= j < |items| && items[j].isFolder && items[j].path == d {
      RowsFolderRow(refs, rank, isSubdir, j);
    }
    if r :| r in refs && r.dir == d {
      RowsCoverRef(refs, rank, isSubdir, r);
      var j :| 0 <= j < |items| && !items[j].isFolder && 0 <= items[j].parent < j && items[items[j].parent].path == d;
      assert items[items[j].parent].isFolder;
    }
  }

  /**
   * A remembered folder selects, after a rescan, the folder row of the same directory,
   * and nothing exactly when no reference is in that directory any more.
   */
  lemma RowsSelectFolder(refs: seq<Ref>, rank: char -> int, isSubdir: (string, string) -> bool, p: string)
    requires Injective(rank) && RefsNonEmpty(refs) && NamesNotDirs(refs)
    requires p != "" && RememberedApart(refs, Prior(p, ""))
    ensures var items := Rows(refs, rank, isSubdir);
      var k := Reconcile(items, Prior(p, ""));
      && (k == -1 <==> forall r :: r in refs ==> r.dir != p)
      && (k >= 0 ==> items[k].isFolder && items[k].path == p)
  {
    var items := Rows(refs, rank, isSubdir);
    RowsSelectable(refs, rank, isSubdir);
    forall j | 0 <= j < |items| && !items[j].isFolder
      ensures items[j].path != p
    {
      RowPathOfRef(refs, rank, isSubdir, j);
    }
    SelectFolder(items, p);
    RowsFolderOfDir(refs, rank, isSubdir, p);
  }

  /**
   * A remembered file selects, after a rescan, the file row of the same name under the
   * folder row of the remembered directory when some reference still names both; else
   * that folder row when the directory is still referenced; else nothing.
   */
  lemma RowsSelectFile(refs: seq<Ref>, rank: char -> int, isSubdir: (string, string) -> bool, name: string, dir: string)
    requires Injective(rank) && RefsNonEmpty(refs) && NamesNotDirs(refs)
    requires name != "" && dir != "" && RememberedApart(refs, Prior(name, dir))
    ensures var items := Rows(refs, rank, isSubdir);
      var k := Reconcile(items, Prior(name, dir));
      && (k == -1 <==> forall r :: r in refs ==> r.dir != dir)
      && (k >= 0 && items[k].isFolder ==>
            && items[k].path == dir
            && forall r :: r in refs ==> !(r.dir == dir && r.name == name))
      && (k >= 0 && !items[k].isFolder ==>
            && items[k].path == name
            && 0 <= items[k].parent < k && items[items[k].parent].isFolder
            && items[items[k].parent].path == dir)
  {
    var items := Rows(refs, rank, isSubdir);
    RowsSelectable(refs, rank, isSubdir);
    forall j | 0 <= j < |items| && items[j].isFolder
      ensures items[j].path != name
    {
      RowPathOfRef(refs, rank, isSubdir, j);
    }
    SelectFile(items, name, dir);
    RowsFolderOfDir(refs, rank, isSubdir, dir);
    var k := Reconcile(items, Prior(name, dir));
    if k >= 0 && items[k].isFolder {
      forall r | r in refs && r.dir == dir
        ensures r.name != name
      {
        RowsCoverRef(refs, rank, isSubdir, r);
        var j :| 0 <= j < |items| && !items[j].isFolder
          && 0 <= items[j].parent < j && items[items[j].parent].path == r.dir
          && items[j].path == r.name && r.image in items[j].images;
        assert items[items[j].parent].isFolder;
        assert items[j].parent == k;
      }
    }
  }
}
