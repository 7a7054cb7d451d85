/**
 * Whether the descendants of a folder row sit directly below it. Change Folder and
 * Select visit the rows after a folder only while `is_child` holds, so a descendant
 * placed after an unrelated row is never visited. With `bpy.path.is_subdir` on POSIX
 * paths this hinges on the order of the directories: Python's `sorted` ranks ` `, `-`,
 * `.` and other characters below `/`, and then `/t`, `/t-old`, `/t/sub` puts an
 * unrelated folder between `/t` and its subfolder. Ranking `/` below every other
 * character keeps every subtree contiguous.
 */
module Contiguity {
  import opened LexOrder
  import opened Tree
  import opened PathIndex
  import opened ListItems
  import opened TreeBuilder
  import opened ScanFacts
  import opened HostApi
  import opened Locator

  /** `str.rstrip('/')`. */
  function RStrip(s: string): (r: string)
    ensures |r| <= |s| && r == s[..|r|]
    decreases |s|
  {
    if |s| > 0 && s[|s| - 1] == '/' then RStrip(s[..|s| - 1]) else s
  }

  /**
   * `bpy.path.is_subdir(path, directory)` on POSIX paths that `normpath` leaves as they
   * are: `path` is longer than `directory` and starts with `directory` stripped of
   * trailing separators followed by one separator.
   */
  predicate PosixIsSubdir(path: string, directory: string) {
    |path| > |directory| && IsPrefix(RStrip(directory) + "/", path)
  }

  /**
   * An absolute directory path without a trailing separator, or the root itself. Empty,
   * `.` and `..` segments are not excluded: `PosixIsSubdir` compares strings, and the
   * `normpath` that would rewrite them is not modelled.
   */
  ghost predicate Canonical(d: string) {
    |d| > 0 && d[0] == '/' && (d == "/" || d[|d| - 1] != '/')
  }

  /** The prefix a subdirectory of a canonical `d` starts with. */
  lemma SubdirPrefix(d: string)
    requires Canonical(d)
    ensures RStrip(d) + "/" == if d == "/" then d else d + "/"
  {
    if d == "/" {
      assert RStrip(d) == RStrip("");
    }
  }

  /** Being a subdirectory is transitive through a canonical middle directory. */
  lemma SubdirTransitive(a: string, b: string, c: string)
    requires Canonical(b) && PosixIsSubdir(a, b) && PosixIsSubdir(b, c)
    ensures PosixIsSubdir(a, c)
  {
    SubdirPrefix(b);
    var kc := RStrip(c) + "/";
    if b == "/" {
      assert c == "";
      assert RStrip(c) == "";
    } else {
      assert a[..|kc|] == a[..|b| + 1][..|kc|];
    }
  }

  /**
   * Under the separator-first order, a directory that sorts between a canonical
   * directory `d` and one of `d`'s subdirectories is itself a subdirectory of `d`.
   */
  lemma Between(d: string, x: string, y: string)
    requires Canonical(d) && PosixIsSubdir(y, d)
    requires Less(d, x, SeparatorFirst) && Less(x, y, SeparatorFirst)
    ensures PosixIsSubdir(x, d)
  {
    SubdirPrefix(d);
    assert y[..|d|] == d;
    var k := LessCases(d, x, SeparatorFirst);
    if k < |d| {
      assert y[..k] == x[..k] && y[k] == d[k];
      LessAt(y, x, k, SeparatorFirst);
      LessAsymmetric(y, x, SeparatorFirst);
      assert false;
    } else if d != "/" && x[|d|] != '/' {
      assert y[..|d|] == x[..|d|] && y[|d|] == '/';
      LessAt(y, x, |d|, SeparatorFirst);
      LessAsymmetric(y, x, SeparatorFirst);
      assert false;
    } else if d != "/" {
      assert x[..|d| + 1] == x[..|d|] + [x[|d|]];
    }
  }

  /** Every folder row has a canonical path. */
  ghost predicate FoldersCanonical(items: seq<Item>) {
    forall j :: 0 <= j < |items| && items[j].isFolder ==> Canonical(items[j].path)
  }

  /** The rows a scan builds with POSIX `is_subdir` and the separator-first order, over canonical folders. */
  ghost predicate PosixRows(items: seq<Item>) {
    Shaped(items, SeparatorFirst, PosixIsSubdir) && FoldersCanonical(items)
  }

  /** A chain through a folder's parent link, written out. */
  lemma ChildOfParent(items: seq<Item>, k: int, p: int)
    requires Linked(items) && 0 <= p < k < |items| && items[k].parent != -1
    ensures IsChild(Links(items), k, p) <==>
      items[k].parent == p || IsChild(Links(items), items[k].parent, p)
  {
  }

  /** A folder row is a descendant of an earlier folder row exactly when its path is a subdirectory of that row's path. */
  lemma {:induction false} FolderDescendant(items: seq<Item>, p: int, f: int)
    requires PosixRows(items)
    requires 0 <= p < f < |items| && items[p].isFolder && items[f].isFolder
    ensures IsChild(Links(items), f, p) <==> PosixIsSubdir(items[f].path, items[p].path)
    decreases f
  {
    var ls := Links(items);
    var q := items[f].parent;
    assert FolderPlaced(items, PosixIsSubdir, f);
    if PosixIsSubdir(items[f].path, items[p].path) {
      assert p <= q;
      if q != p {
        Between(items[p].path, items[q].path, items[f].path);
        FolderDescendant(items, p, q);
      }
      ChildOfParent(items, f, p);
    }
    if IsChild(ls, f, p) {
      assert q != -1;
      ChildOfParent(items, f, p);
      if q != p {
        IsChildIffAncestor(ls, q, p);
        FolderDescendant(items, p, q);
        SubdirTransitive(items[f].path, items[q].path, items[p].path);
      }
    }
  }

  /** The latest folder row at or before row `k`, or -1. */
  function LastFolder(items: seq<Item>, k: int): (h: int)
    requires 0 <= k < |items|
    ensures -1 <= h <= k && (h >= 0 ==> items[h].isFolder)
    ensures forall i :: h < i <= k ==> !items[i].isFolder
    decreases k
  {
    if items[k].isFolder then k else if k == 0 then -1 else LastFolder(items, k - 1)
  }

  /**
   * Any row after folder row `p` is a descendant of it exactly when the latest folder
   * row at or before it is `p` or has a subdirectory of `p`'s path.
   */
  lemma RowDescendant(items: seq<Item>, p: int, k: int)
    requires PosixRows(items)
    requires 0 <= p < k < |items| && items[p].isFolder
    ensures var h := LastFolder(items, k);
      && p <= h
      && (IsChild(Links(items), k, p) <==> h == p || PosixIsSubdir(items[h].path, items[p].path))
  {
    var h := LastFolder(items, k);
    if items[k].isFolder {
      FolderDescendant(items, p, k);
    } else {
      assert FileUnderFolder(items, k);
      var q := items[k].parent;
      assert h == q;
      ChildOfParent(items, k, p);
      if q != p {
        FolderDescendant(items, p, q);
      }
    }
  }

  /** The latest folder row at or before a row is no later than the one at or before a later row. */
  lemma LastFolderMonotone(items: seq<Item>, k: int, j: int)
    requires 0 <= k <= j < |items|
    ensures LastFolder(items, k) <= LastFolder(items, j)
  {
    var hk := LastFolder(items, k);
    var hj := LastFolder(items, j);
    if hj < hk {
      assert false;
    }
  }

  /** What the gap-freedom argument needs about rows `k <= j` after folder row `p`. */
  lemma RunFacts(items: seq<Item>, p: int, k: int, j: int)
    requires PosixRows(items)
    requires 0 <= p < k <= j < |items| && items[p].isFolder
    ensures var hk := LastFolder(items, k);
      var hj := LastFolder(items, j);
      && p <= hk <= hj && Canonical(items[p].path)
      && (IsChild(Links(items), k, p) <==> hk == p || PosixIsSubdir(items[hk].path, items[p].path))
      && (IsChild(Links(items), j, p) <==> hj == p || PosixIsSubdir(items[hj].path, items[p].path))
      && (p < hk < hj ==>
            (Less(items[p].path, items[hk].path, SeparatorFirst) && Less(items[hk].path, items[hj].path, SeparatorFirst)))
  {
    RowDescendant(items, p, k);
    RowDescendant(items, p, j);
    LastFolderMonotone(items, k, j);
  }

  /** The descendants of a folder row follow it without a gap. */
  lemma Contiguous(items: seq<Item>, p: int, j: int, k: int)
    requires PosixRows(items)
    requires 0 <= p < k <= j < |items| && items[p].isFolder
    requires IsChild(Links(items), j, p)
    ensures IsChild(Links(items), k, p)
  {
    RunFacts(items, p, k, j);
    var hk := LastFolder(items, k);
    var hj := LastFolder(items, j);
    if p < hk < hj {
      Between(items[p].path, items[hk].path, items[hj].path);
    }
  }

  /**
   * The run that Change Folder and Select visit after folder row `p` is exactly its
   * descendants: a later row lies before the end of the run iff it is a descendant.
   */
  lemma RunIsSubtree(items: seq<Item>, p: int, j: int)
    requires PosixRows(items)
    requires 0 <= p < j < |items| && items[p].isFolder
    ensures j < RunEnd(Links(items), p, p + 1) <==> IsChild(Links(items), j, p)
  {
    var ls := Links(items);
    var e := RunEnd(ls, p, p + 1);
    if IsChild(ls, j, p) && e <= j {
      Contiguous(items, p, j, e);
    }
  }

  /**
   * For a scan with POSIX `is_subdir` whose directories are canonical, the run after
   * every folder row is exactly that folder's subtree.
   */
  lemma ScanRunsAreSubtrees(nodes: seq<Node>, store: ImageStore, host: Host, prev: Stuff, p: int, j: int)
    requires NodesResolve(nodes, store) && host.isSubdir == PosixIsSubdir
    requires forall r :: r in Refs(nodes, store, host) ==> Canonical(r.dir)
    requires Scan(nodes, store, host, prev).Success?
    requires var items := Scan(nodes, store, host, prev).value.items;
      0 <= p < j < |items| && items[p].isFolder
    ensures var items := Scan(nodes, store, host, prev).value.items;
      j < RunEnd(Links(items), p, p + 1) <==> IsChild(Links(items), j, p)
  {
    var refs := Refs(nodes, store, host);
    var items := Rows(refs, SeparatorFirst, PosixIsSubdir);
    RanksAreInjective();
    RowsShaped(refs, SeparatorFirst, PosixIsSubdir);
    forall f | 0 <= f < |items| && items[f].isFolder
      ensures Canonical(items[f].path)
    {
      RowsFolderRow(refs, SeparatorFirst, PosixIsSubdir, f);
    }
    RunIsSubtree(items, p, j);
  }

  /** Three references whose directories are `/t`, a sibling `/t-old`, and the subfolder `/t/sub`. */
  function SiblingRefs(): seq<Ref> {
    [Ref("/t", "a", 0), Ref("/t-old", "b", 1), Ref("/t/sub", "c", 2)]
  }

  /** The groups of `SiblingRefs`, in the order the references were met. */
  lemma SiblingIndex(refs: seq<Ref>)
    requires refs == SiblingRefs()
    ensures Index(refs) == [Group("/t", [Entry("a", [0])]), Group("/t-old", [Entry("b", [1])]),
                                     Group("/t/sub", [Entry("c", [2])])]
  {
    assert refs[..1] == [refs[0]] && refs[..2] == [refs[0], refs[1]];
    assert refs[..2][..1] == refs[..1];
    assert Index(refs[..1]) == [Group("/t", [Entry("a", [0])])] by {
      assert refs[..1][..0] == [];
    }
    assert Index(refs[..2]) == [Group("/t", [Entry("a", [0])]), Group("/t-old", [Entry("b", [1])])];
  }

  /** How the three directories compare under the two rankings: they differ only in where `/t-old` goes. */
  lemma SiblingOrder()
    ensures Less("/t", "/t-old", CodePoint) && Less("/t-old", "/t/sub", CodePoint)
    ensures Less("/t", "/t/sub", SeparatorFirst) && Less("/t/sub", "/t-old", SeparatorFirst)
    ensures Less("/t", "/t-old", SeparatorFirst) && !Less("/t-old", "/t/sub", SeparatorFirst)
  {
    PrefixIsLess("/t", "/t-old", CodePoint);
    PrefixIsLess("/t", "/t-old", SeparatorFirst);
    PrefixIsLess("/t", "/t/sub", SeparatorFirst);
    assert "/t-old"[..2] == "/t/sub"[..2];
    LessAt("/t-old", "/t/sub", 2, CodePoint);
    LessAt("/t/sub", "/t-old", 2, SeparatorFirst);
    LessAsymmetric("/t/sub", "/t-old", SeparatorFirst);
  }

  /** Only `/t/sub` lies under another of the three directories. */
  lemma SiblingSubdirs()
    ensures PosixIsSubdir("/t/sub", "/t")
    ensures !PosixIsSubdir("/t-old", "/t") && !PosixIsSubdir("/t/sub", "/t-old") && !PosixIsSubdir("/t-old", "/t/sub")
  {
    assert RStrip("/t") == "/t";
    assert RStrip("/t-old") == "/t-old";
    assert "/t/sub"[..3] == "/t/" && "/t-old"[2] == '-';
  }

  /** A single group sorts to itself. */
  lemma SortOne(c: Group, rank: char -> int)
    ensures Sort([c], DirOf, rank) == [c]
  {
    assert [c][1..] == [];
  }

  /** Sorting two groups puts the lower directory first. */
  lemma SortTwo(b: Group, c: Group, rank: char -> int)
    ensures Less(b.dir, c.dir, rank) ==> Sort([b, c], DirOf, rank) == [b, c]
    ensures !Less(b.dir, c.dir, rank) ==> Sort([b, c], DirOf, rank) == [c, b]
  {
    assert [b, c][1..] == [c];
    SortOne(c, rank);
    assert [c][1..] == [];
  }

  /** Three directories already in order sort to themselves. */
  lemma SortInOrder(a: Group, b: Group, c: Group, rank: char -> int)
    requires Less(a.dir, b.dir, rank) && Less(b.dir, c.dir, rank)
    ensures Sort([a, b, c], DirOf, rank) == [a, b, c]
  {
    assert [a, b, c][1..] == [b, c];
    SortTwo(b, c, rank);
  }

  /** Three directories whose last two are out of order sort with those two swapped. */
  lemma SortSwapLast(a: Group, b: Group, c: Group, rank: char -> int)
    requires Less(a.dir, c.dir, rank) && Less(c.dir, b.dir, rank)
    ensures Sort([a, b, c], DirOf, rank) == [a, c, b]
  {
    assert [a, b, c][1..] == [b, c];
    LessAsymmetric(c.dir, b.dir, rank);
    SortTwo(b, c, rank);
  }

  /** A directory holding one file used by one image. */
  predicate Single(g: Group) {
    |g.entries| == 1
  }

  /**
   * The rows of three single-file directories: each folder row hangs off the latest
   * earlier folder that contains it, and each file row off the folder row before it.
   */
  lemma BuildThree(a: Group, b: Group, c: Group, isSubdir: (string, string) -> bool)
    requires Single(a) && Single(b) && Single(c)
    ensures var r := Build([a, b, c], isSubdir);
      && |r| == 6
      && r[0] == Item(-1, a.dir, true, true, [])
      && r[1] == Item(0, a.entries[0].filename, false, true, a.entries[0].images)
      && r[2] == Item(if isSubdir(b.dir, a.dir) then 0 else -1, b.dir, true, true, [])
      && r[3] == Item(2, b.entries[0].filename, false, true, b.entries[0].images)
      && r[4] == Item(if isSubdir(c.dir, b.dir) then 2 else if isSubdir(c.dir, a.dir) then 0 else -1, c.dir, true, true, [])
      && r[5] == Item(4, c.entries[0].filename, false, true, c.entries[0].images)
  {
    var gs := [a, b, c];
    assert gs[..2] == [a, b] && gs[..2][..1] == [a] && [a][..0] == [];
    var r0 := Build([a], isSubdir);
    assert Build([], isSubdir) == [];
    assert |r0| == 2 && r0[0] == Item(-1, a.dir, true, true, []);
    var r1 := Build([a, b], isSubdir);
    assert r1 == Emit(r0, b, isSubdir);
    assert |r1| == 4 && r1[..2] == r0;
    assert r1[0] == r0[0];
    var r := Build(gs, isSubdir);
    assert r == Emit(r1, c, isSubdir);
    assert r[..4] == r1;
  }

  /** The rows of `SiblingRefs` in code-point order: `/t/sub` comes after `/t-old`. */
  lemma AsWrittenRows(refs: seq<Ref>)
    requires refs == SiblingRefs()
    ensures var items := Rows(refs, CodePoint, PosixIsSubdir);
      && |items| == 6
      && items[0] == Item(-1, "/t", true, true, []) && items[1] == Item(0, "a", false, true, [0])
      && items[2] == Item(-1, "/t-old", true, true, []) && items[3] == Item(2, "b", false, true, [1])
      && items[4] == Item(0, "/t/sub", true, true, []) && items[5] == Item(4, "c", false, true, [2])
  {
    var g0 := Group("/t", [Entry("a", [0])]);
    var g1 := Group("/t-old", [Entry("b", [1])]);
    var g2 := Group("/t/sub", [Entry("c", [2])]);
    SiblingIndex(refs);
    SiblingOrder();
    SortInOrder(g0, g1, g2, CodePoint);
    SiblingSubdirs();
    BuildThree(g0, g1, g2, PosixIsSubdir);
  }

  /** The rows of `SiblingRefs` with the separator ranked first: `/t/sub` comes right after `/t`. */
  lemma CorrectedRows(refs: seq<Ref>)
    requires refs == SiblingRefs()
    ensures var items := Rows(refs, SeparatorFirst, PosixIsSubdir);
      && |items| == 6
      && items[0] == Item(-1, "/t", true, true, []) && items[1] == Item(0, "a", false, true, [0])
      && items[2] == Item(0, "/t/sub", true, true, []) && items[3] == Item(2, "c", false, true, [2])
      && items[4] == Item(-1, "/t-old", true, true, []) && items[5] == Item(4, "b", false, true, [1])
  {
    var g0 := Group("/t", [Entry("a", [0])]);
    var g1 := Group("/t-old", [Entry("b", [1])]);
    var g2 := Group("/t/sub", [Entry("c", [2])]);
    SiblingIndex(refs);
    SiblingOrder();
    SortSwapLast(g0, g1, g2, SeparatorFirst);
    SiblingSubdirs();
    BuildThree(g0, g2, g1, PosixIsSubdir);
  }

  /**
   * Python's `sorted` (code-point order) keeps `/t`, `/t-old`, `/t/sub`: `-` ranks below
   * `/`. The subfolder's row then follows an unrelated folder row, so the run of
   * `is_child` rows after `/t` ends at row 2 although row 5, a file of `/t/sub`, is a
   * descendant of `/t`: Change Folder and Select on `/t` never reach it.
   */
  lemma AsWrittenRunMissesSubfolder(refs: seq<Ref>)
    requires refs == SiblingRefs()
    ensures var items := Rows(refs, CodePoint, PosixIsSubdir);
      && |items| == 6 && Linked(items)
      && items[0].isFolder && items[0].path == "/t"
      && items[5].path == "c" && !items[5].isFolder
      && IsChild(Links(items), 5, 0)
      && RunEnd(Links(items), 0, 1) == 2
  {
    AsWrittenRows(refs);
    var ls := Links(Rows(refs, CodePoint, PosixIsSubdir));
    assert ls[0].parent == -1 && ls[1].parent == 0 && ls[2].parent == -1;
    assert ls[3].parent == 2 && ls[4].parent == 0 && ls[5].parent == 4;
    BuildLinked(Groups(refs, CodePoint), PosixIsSubdir);
    assert ChainHits(ls, 4, 0);
    assert IsChild(ls, 1, 0) && !IsChild(ls, 2, 0);
  }

  /** With the separator ranked first the same references give `/t`, `/t/sub`, `/t-old`: the run after `/t` is its subtree. */
  lemma CorrectedRunReachesSubfolder(refs: seq<Ref>)
    requires refs == SiblingRefs()
    ensures var items := Rows(refs, SeparatorFirst, PosixIsSubdir);
      && |items| == 6 && Linked(items)
      && items[0].isFolder && items[0].path == "/t"
      && items[3].path == "c" && !items[3].isFolder
      && RunEnd(Links(items), 0, 1) == 4
  {
    CorrectedRows(refs);
    var ls := Links(Rows(refs, SeparatorFirst, PosixIsSubdir));
    assert ls[0].parent == -1 && ls[1].parent == 0 && ls[2].parent == 0;
    assert ls[3].parent == 2 && ls[4].parent == -1 && ls[5].parent == 4;
    BuildLinked(Groups(refs, SeparatorFirst), PosixIsSubdir);
    assert ChainHits(ls, 2, 0);
    assert !IsChild(ls, 4, 0);
    assert RunEnd(ls, 0, 4) == 4;
    assert IsChild(ls, 3, 0);
    assert RunEnd(ls, 0, 3) == 4;
    assert IsChild(ls, 2, 0) && IsChild(ls, 1, 0);
  }
}
